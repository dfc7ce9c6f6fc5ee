/** The heap, the two trails and the choice points of a thread.  Writes are trailed when a choice
    point may need the old contents, and backtracking gives them back exactly.
 */
module TrailedHeap {
  import opened Trails

  class Thread {
    const cap: nat        // heap cells are below cap; the others are implicit parameters
    const mem: array<nat>
    var top: nat
    var savedTop: nat
    var bindingTrail: Bindings
    var otherTrail: Entries
    var choices: seq<HeapAndTrails>
    var quickTidyCheck: bool
    var held: multiset<nat>      // references to dynamic predicates
    ghost var refs: set<nat>     // the reference cells of variables
    ghost var snaps: seq<Memory> // the memory when each choice point was made

    ghost predicate Valid()
      reads this, mem
    {
      && cap <= mem.Length && ChoicesOk(choices, top, savedTop, cap)
      && SnapsOk(mem[..], cap, bindingTrail, otherTrail, choices, snaps)
      && TrailsOk(bindingTrail, otherTrail, refs, choices, top, cap, mem.Length)
      && held == Refs(otherTrail)
    }

    constructor (cap: nat, words: nat)
      requires cap <= words
      ensures Valid() && top == 0 && choices == [HeapAndTrails(0, 0, 0)] && snaps == [mem[..]] && fresh(mem)
    {
      this.cap, mem := cap, new nat[words](_ => 0);
      top, savedTop, bindingTrail, otherTrail, quickTidyCheck := 0, 0, [], [], true;
      choices, held, refs := [HeapAndTrails(0, 0, 0)], multiset{}, {};
      new;
      snaps := [mem[..]];
      assert Restores(mem[..], [], [], 0, this.cap, mem[..]);
    }

    // ------------------------------------------------------------------
    // Writing
    // ------------------------------------------------------------------

    /** New words on the heap; variables says which are the reference cells of variables. */
    method Allocate(n: nat, ghost variables: set<nat>) returns (addr: nat)
      requires Valid() && top + n <= cap && forall a :: a in variables ==> top < a < top + n
      modifies this`top, this`refs
      ensures Valid() && addr == old(top) && top == old(top) + n
      ensures refs == (set a | a in old(refs) && a < old(top)) + variables
    {
      hide SnapsOk, ChoicesOk, TrailsOk;
      AllocateOk(bindingTrail, otherTrail, refs, choices, top, savedTop, cap, mem.Length, n, variables);
      addr := top;
      refs := (set a | a in refs && a < top) + variables;
      top := top + n;
    }

    /** A word of an object made since the last choice point. */
    method Initialise(a: nat, x: nat)
      requires Valid() && savedTop <= a < top
      modifies mem
      ensures Valid() && mem[..] == old(mem[..])[a := x]
    {
      hide SnapsOk, TrailsOk;
      NewCell(mem[..], cap, bindingTrail, otherTrail, choices, snaps, a, x);
      ghost var m := mem[..];
      mem[a] := x;
      assert mem[..] == m[a := x];
    }

    predicate IsUnbound(v: nat)
      reads this, mem
    {
      v + 1 < top && v + 1 < mem.Length && mem[v + 1] == v
    }

    /** bindAndTrail */
    method BindAndTrail(v: nat, value: nat)
      requires Valid() && IsUnbound(v) && v + 1 in refs
      modifies this`bindingTrail, mem
      ensures Valid() && mem[..] == old(mem[..])[v + 1 := value]
      ensures bindingTrail == if v < savedTop then old(bindingTrail) + [v] else old(bindingTrail)
    {
      hide SnapsOk, TrailsOk, Refs;
      ghost var m := mem[..];
      if v < savedTop {
        BoundCell(mem[..], cap, bindingTrail, otherTrail, choices, snaps, v, value);
        BindingPushed(bindingTrail, otherTrail, refs, choices, top, cap, mem.Length, v);
        bindingTrail := bindingTrail + [v];
      } else {
        NewCell(mem[..], cap, bindingTrail, otherTrail, choices, snaps, v + 1, value);
      }
      mem[v + 1] := value;
      assert mem[..] == m[v + 1 := value];
    }

    /** bindVarVar: the younger of two variables is bound to the other, if one of them is young
        enough not to be trailed. */
    method BindVarVar(var1: nat, var2: nat)
      requires Valid() && var1 != var2 && IsUnbound(var1) && IsUnbound(var2) && var1 + 1 in refs && var2 + 1 in refs
      modifies this`bindingTrail, mem
      ensures Valid()
      ensures mem[..] == if var1 < savedTop <= var2 then old(mem[..])[var2 + 1 := var1] else old(mem[..])[var1 + 1 := var2]
      ensures bindingTrail == if var1 < savedTop && var2 < savedTop then old(bindingTrail) + [var1] else old(bindingTrail)
    {
      hide SnapsOk, TrailsOk, Refs;
      ghost var m := mem[..];
      if var1 >= savedTop {
        NewCell(mem[..], cap, bindingTrail, otherTrail, choices, snaps, var1 + 1, var2);
        mem[var1 + 1] := var2;
        assert mem[..] == m[var1 + 1 := var2];
      } else if var2 >= savedTop {
        NewCell(mem[..], cap, bindingTrail, otherTrail, choices, snaps, var2 + 1, var1);
        mem[var2 + 1] := var1;
        assert mem[..] == m[var2 + 1 := var1];
      } else {
        BoundCell(mem[..], cap, bindingTrail, otherTrail, choices, snaps, var1, var2);
        BindingPushed(bindingTrail, otherTrail, refs, choices, top, cap, mem.Length, var1);
        bindingTrail := bindingTrail + [var1];
        mem[var1 + 1] := var2;
        assert mem[..] == m[var1 + 1 := var2];
      }
    }

    /** A word that may be updated: of an object on the heap, or outside it; not the reference cell
        of a variable. */
    ghost predicate Updatable(ptr: nat, offset: nat)
      reads this
    {
      && ptr + offset !in refs && ptr + offset < mem.Length
      && (if ptr < top then ptr + offset < top else ptr >= cap)
    }

    /** updateAndTrailObject and updateAndTrailIP, and trailTag with the write that follows it
        (tag, offset 0). */
    method UpdateAndTrail(tag: bool, ptr: nat, value: nat, offset: nat)
      requires Valid() && Updatable(ptr, offset)
      modifies this`otherTrail, mem
      ensures Valid() && mem[..] == old(mem[..])[ptr + offset := value]
      ensures |choices| > 0 && choices[|choices| - 1].otherTop <= |old(otherTrail)|
      ensures otherTrail == if NeedsTrail(quickTidyCheck, old(otherTrail), choices[|choices| - 1], savedTop, top, tag, ptr, offset)
                            then old(otherTrail) + [Saved(tag, ptr, offset, old(mem[ptr + offset]))] else old(otherTrail)
    {
      hide SnapsOk, TrailsOk, Refs, NeedsTrail;
      ghost var m := mem[..];
      TopsIn(bindingTrail, otherTrail, refs, choices, top, cap, mem.Length, savedTop);
      if NeedsTrail(quickTidyCheck, otherTrail, choices[|choices| - 1], savedTop, top, tag, ptr, offset) {
        var e := Saved(tag, ptr, offset, mem[ptr + offset]);
        NotBound(bindingTrail, otherTrail, refs, choices, top, cap, mem.Length, ptr + offset);
        SavedCell(mem[..], cap, bindingTrail, otherTrail, choices, snaps, tag, ptr, offset, value);
        EntryPushed(bindingTrail, otherTrail, refs, choices, top, cap, mem.Length, e);
        RefsPush(otherTrail, e);
        otherTrail := otherTrail + [e];
      } else {
        UntrailedCell(mem[..], cap, bindingTrail, otherTrail, choices, snaps, savedTop, top, quickTidyCheck, tag, ptr, offset, value);
      }
      mem[ptr + offset] := value;
      assert mem[..] == m[ptr + offset := value];
    }

    /** A call of a dynamic predicate takes a reference, to be released when the entry leaves the
        trail. */
    method PushPredRef(pred: nat)
      requires Valid()
      modifies this`otherTrail, this`held
      ensures Valid() && otherTrail == old(otherTrail) + [Ref(pred)] && held == old(held) + multiset{pred}
    {
      hide SnapsOk, TrailsOk, Refs, ChoicesOk;
      RefPushed(mem[..], cap, bindingTrail, otherTrail, choices, snaps, pred);
      EntryPushed(bindingTrail, otherTrail, refs, choices, top, cap, mem.Length, Ref(pred));
      RefsPush(otherTrail, Ref(pred));
      otherTrail := otherTrail + [Ref(pred)];
      held := held + multiset{pred};
    }

    // ------------------------------------------------------------------
    // Choice points
    // ------------------------------------------------------------------

    /** pushChoicePoint, the heap and the trails */
    method PushChoicePoint()
      requires Valid()
      modifies this`choices, this`savedTop, this`snaps
      ensures Valid() && snaps == old(snaps) + [mem[..]]
      ensures choices == old(choices) + [HeapAndTrails(top, |bindingTrail|, |otherTrail|)]
    {
      hide SnapsOk, TrailsOk, Refs, ChoicesOk;
      OneMoreChoice(mem[..], cap, bindingTrail, otherTrail, choices, snaps, savedTop, top, refs);
      choices := choices + [HeapAndTrails(top, |bindingTrail|, |otherTrail|)];
      savedTop := top;
      snaps := snaps + [mem[..]];
    }

    /** BindingTrail::backtrackTo */
    method BacktrackBindings(loc: nat)
      requires loc <= |bindingTrail| && forall v :: v in bindingTrail ==> v + 1 < mem.Length
      modifies this`bindingTrail, mem
      ensures bindingTrail == old(bindingTrail)[..loc]
      ensures forall a :: 0 <= a < mem.Length ==> mem[a] == Unbound(old(bindingTrail)[loc..], a, old(mem[a]))
    {
      var k := |bindingTrail|;
      assert bindingTrail[k..] == [];
      while k > loc
        invariant loc <= k <= |bindingTrail| && bindingTrail == old(bindingTrail)
        invariant forall a :: 0 <= a < mem.Length ==> mem[a] == Unbound(bindingTrail[k..], a, old(mem[a]))
      {
        k := k - 1;
        var v := bindingTrail[k];
        assert v in bindingTrail;
        mem[v + 1] := v;
        assert bindingTrail[k..] == [v] + bindingTrail[k + 1..];
      }
      bindingTrail := bindingTrail[..loc];
    }

    /** OtherTrail::backtrackTo */
    method BacktrackOthers(loc: nat)
      requires loc <= |otherTrail| && held == Refs(otherTrail)
      requires forall e :: e in otherTrail && e.Saved? ==> e.addr + e.offset < mem.Length
      modifies this`otherTrail, this`held, mem
      ensures otherTrail == old(otherTrail)[..loc] && held == Refs(otherTrail)
      ensures forall a :: 0 <= a < mem.Length ==> mem[a] == PutBack(old(otherTrail)[loc..], a, old(mem[a]))
    {
      hide Refs;
      var k := |otherTrail|;
      ghost var ot := otherTrail;
      assert ot[..k] == ot && ot[k..] == [];
      while k > loc
        invariant loc <= k <= |ot| && otherTrail == ot && held == Refs(ot[..k])
        invariant forall a :: 0 <= a < mem.Length ==> mem[a] == PutBack(ot[k..], a, old(mem[a]))
      {
        k := k - 1;
        PutBackFrom(ot, k);
        var entry := otherTrail[k];
        match entry {
          case Saved(_, addr, offset, was) => mem[addr + offset] := was;
          case Ref(pred) => held := held - multiset{pred};
        }
      }
      otherTrail := otherTrail[..loc];
    }

    /** backtrackTo the last choice point, which stays: every cell that existed when it was made,
        on the heap or outside, has the contents it had then. */
    method Backtrack()
      requires Valid()
      modifies this`top, this`savedTop, this`bindingTrail, this`otherTrail, this`held, mem
      ensures Valid() && |choices| > 0 && |snaps| == |choices| && |snaps[|snaps| - 1]| == mem.Length
      ensures top == savedTop == choices[|choices| - 1].heapTop <= old(savedTop)
      ensures forall a :: 0 <= a < mem.Length && Old(a, top, cap) ==> mem[a] == snaps[|snaps| - 1][a]
      ensures choices[|choices| - 1].bindingTop <= |old(bindingTrail)| && bindingTrail == old(bindingTrail)[..choices[|choices| - 1].bindingTop]
      ensures choices[|choices| - 1].otherTop <= |old(otherTrail)| && otherTrail == old(otherTrail)[..choices[|choices| - 1].otherTop]
    {
      hide SnapsOk, TrailsOk, Refs, Undone, Unbound, PutBack;
      ghost var m, bt, ot := mem[..], bindingTrail, otherTrail;
      TopsIn(bt, ot, refs, choices, top, cap, mem.Length, savedTop);
      UnwoundTrails(bt, ot, refs, choices, savedTop, top, cap, mem.Length);
      EntriesInside(bt, ot, refs, choices, top, cap, mem.Length);
      var c := choices[|choices| - 1];
      BacktrackBindings(c.bindingTop);
      ghost var m1 := mem[..];
      BacktrackOthers(c.otherTop);
      assert Unwound(m, bt, ot, c, mem[..]) by { BothUnwound(m, m1, mem[..], bt, ot, c); }
      UnwoundSnaps(m, cap, bt, ot, choices, snaps, savedTop, top, refs, mem[..]);
      BackThen(mem[..], cap, bindingTrail, otherTrail, choices, snaps);
      top, savedTop := c.heapTop, c.heapTop;
    }

    /** Retry: try the next alternative of the last choice point. */
    method Retry()
      requires Valid()
      modifies this`top, this`savedTop, this`bindingTrail, this`otherTrail, this`held, mem
      ensures Valid() && |choices| > 0 && |snaps| == |choices| && |snaps[|snaps| - 1]| == mem.Length
      ensures top == savedTop == choices[|choices| - 1].heapTop
      ensures forall a :: 0 <= a < mem.Length && Old(a, top, cap) ==> mem[a] == snaps[|snaps| - 1][a]
      ensures choices[|choices| - 1].bindingTop <= |old(bindingTrail)| && bindingTrail == old(bindingTrail)[..choices[|choices| - 1].bindingTop]
      ensures choices[|choices| - 1].otherTop <= |old(otherTrail)| && otherTrail == old(otherTrail)[..choices[|choices| - 1].otherTop]
    {
      Backtrack();
    }

    /** tidyTrails: drop the entries the last choice point does not need, and release the references
        among them. */
    method TidyTrails()
      requires Valid()
      modifies this`savedTop, this`bindingTrail, this`otherTrail, this`held
      ensures Valid() && |choices| > 0 && savedTop == choices[|choices| - 1].heapTop
      ensures var c, bt, ot := choices[|choices| - 1], old(bindingTrail), old(otherTrail);
              && c.bindingTop <= |bt| && bindingTrail == bt[..c.bindingTop] + OlderThan(bt[c.bindingTop..], c.heapTop)
              && c.otherTop <= |ot| && otherTrail == ot[..c.otherTop] + Tidied(ot[c.otherTop..], c.heapTop, top)
    {
      hide SnapsOk, TrailsOk, Refs, OlderThan, Tidied;
      TopsIn(bindingTrail, otherTrail, refs, choices, top, cap, mem.Length, savedTop);
      TidiedSnaps(mem[..], cap, bindingTrail, otherTrail, choices, snaps, savedTop, top, refs);
      TidiedTrails(bindingTrail, otherTrail, refs, choices, savedTop, top, cap, mem.Length);
      var c := choices[|choices| - 1];
      TidyBindings(c.bindingTop, c.heapTop);
      TidyOthers(c.otherTop, c.heapTop);
      savedTop := c.heapTop;
    }

    /** BindingTrail::tidyUpTrail */
    method TidyBindings(loc: nat, h: nat)
      requires loc <= |bindingTrail|
      modifies this`bindingTrail
      ensures bindingTrail == old(bindingTrail)[..loc] + OlderThan(old(bindingTrail)[loc..], h)
    {
      hide OlderThan;
      var kept: Bindings := [];
      ghost var seg := bindingTrail[loc..];
      var k := loc;
      NoOlder(h);
      while k < |bindingTrail|
        invariant loc <= k <= |bindingTrail| && bindingTrail == old(bindingTrail) && kept == OlderThan(seg[..k - loc], h)
      {
        OlderNext(seg, k - loc, h);
        if bindingTrail[k] < h {
          kept := kept + [bindingTrail[k]];
        }
        k := k + 1;
      }
      assert seg[..k - loc] == seg;
      bindingTrail := bindingTrail[..loc] + kept;
    }

    /** OtherTrail::tidyUpTrail */
    method TidyOthers(loc: nat, h: nat)
      requires loc <= |otherTrail| && held == Refs(otherTrail)
      modifies this`otherTrail, this`held
      ensures otherTrail == old(otherTrail)[..loc] + Tidied(old(otherTrail)[loc..], h, top) && held == Refs(otherTrail)
    {
      hide Tidied, Refs, Dropped;
      var keep: Entries := [];
      ghost var seg, below := otherTrail[loc..], otherTrail[..loc];
      assert otherTrail == below + seg;
      var k := |otherTrail|;
      TidyStart(below, seg, h, top);
      while k > loc
        invariant loc <= k <= |otherTrail| && otherTrail == old(otherTrail)
        invariant Tidied(seg, h, top) == Tidied(seg[..k - loc], h, top) + keep
        invariant held == Refs(below + seg[..k - loc] + keep)
      {
        k := k - 1;
        var entry := otherTrail[k];
        TidyStep(below, seg, k - loc, keep, h, top);
        assert otherTrail[loc..k] == seg[..k - loc];
        if Dropped(otherTrail[loc..k], entry, h, top) {
          if entry.Ref? {
            held := held - multiset{entry.pred};
          }
        } else {
          keep := [entry] + keep;
        }
      }
      TidyEnd(below, seg, keep, h, top);
      otherTrail := otherTrail[..loc] + keep;
    }

    /** Trust: backtrack to the last choice point, and leave it. */
    method Trust()
      requires Valid() && |choices| > 1
      modifies this, mem
      ensures Valid() && choices == old(choices)[..|old(choices)| - 1]
      ensures |old(snaps)| == |old(choices)| && snaps == old(snaps)[..|snaps|] && |old(snaps)[|snaps|]| == mem.Length
      ensures top == old(choices)[|choices|].heapTop
      ensures forall a :: 0 <= a < mem.Length && Old(a, top, cap) ==> mem[a] == old(snaps)[|snaps|][a]
      ensures |choices| > 0
      ensures var c, d, bt, ot := old(choices)[|choices|], choices[|choices| - 1], old(bindingTrail), old(otherTrail);
              && savedTop == d.heapTop
              && d.bindingTop <= c.bindingTop <= |bt| && d.otherTop <= c.otherTop <= |ot|
              && bindingTrail == bt[..d.bindingTop] + OlderThan(bt[d.bindingTop..c.bindingTop], d.heapTop)
              && otherTrail == ot[..d.otherTop] + Tidied(ot[d.otherTop..c.otherTop], d.heapTop, top)
    {
      hide SnapsOk, TrailsOk, Refs, ChoicesOk, OlderThan, Tidied;
      Backtrack();
      Leave(|choices| - 1);
      TidyTrails();
    }

    /** The last clause of a dynamic predicate: as Trust, but the trails are not tidied. */
    method TrustDatabase()
      requires Valid() && |choices| > 1
      modifies this, mem
      ensures Valid() && choices == old(choices)[..|old(choices)| - 1]
      ensures |old(snaps)| == |old(choices)| && snaps == old(snaps)[..|snaps|] && |old(snaps)[|snaps|]| == mem.Length
      ensures top == savedTop == old(choices)[|choices|].heapTop
      ensures forall a :: 0 <= a < mem.Length && Old(a, top, cap) ==> mem[a] == old(snaps)[|snaps|][a]
      ensures var c, bt, ot := old(choices)[|choices|], old(bindingTrail), old(otherTrail);
              && c.bindingTop <= |bt| && bindingTrail == bt[..c.bindingTop]
              && c.otherTop <= |ot| && otherTrail == ot[..c.otherTop]
    {
      hide SnapsOk, TrailsOk, Refs, ChoicesOk;
      Backtrack();
      Leave(|choices| - 1);
    }

    /** Choice points from k on are dropped. */
    method Leave(k: nat)
      requires Valid() && 0 < k <= |choices|
      modifies this`choices, this`snaps
      ensures Valid() && choices == old(choices)[..k] && |old(snaps)| == |old(choices)| && snaps == old(snaps)[..k]
    {
      hide TrailsOk, Refs, ChoicesOk, Restores;
      FewerChoices(mem[..], cap, bindingTrail, otherTrail, choices, snaps, savedTop, top, refs, k);
      choices, snaps := choices[..k], snaps[..k];
    }

    /** NECK_CUT and CUT: back to the k choice points there were. */
    method Cut(k: nat)
      requires Valid() && 0 < k <= |choices|
      modifies this`savedTop, this`bindingTrail, this`otherTrail, this`held, this`choices, this`snaps
      ensures Valid() && choices == old(choices)[..k] && |old(snaps)| == |old(choices)| && snaps == old(snaps)[..k]
      ensures if k == |old(choices)| then savedTop == old(savedTop) && bindingTrail == old(bindingTrail) && otherTrail == old(otherTrail)
              else var c, bt, ot := choices[k - 1], old(bindingTrail), old(otherTrail);
                   && savedTop == c.heapTop
                   && c.bindingTop <= |bt| && bindingTrail == bt[..c.bindingTop] + OlderThan(bt[c.bindingTop..], c.heapTop)
                   && c.otherTop <= |ot| && otherTrail == ot[..c.otherTop] + Tidied(ot[c.otherTop..], c.heapTop, top)
    {
      hide SnapsOk, TrailsOk, Refs, ChoicesOk, OlderThan, Tidied;
      ghost var n := |choices|;
      SnapsLength(mem[..], cap, bindingTrail, otherTrail, choices, snaps);
      if |choices| > k {
        Leave(k);
        TidyTrails();
      } else {
        assert choices == choices[..k] && snaps == snaps[..k];
      }
    }
  }
}
