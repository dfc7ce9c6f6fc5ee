/** The environment stack.  Environments are records of a word array, chained from the current one
    to its continuations; a choice point keeps the environments it needs by remembering a top of
    stack below which nothing new is pushed.
 */
module Environments {
  /** Words of a record before the Y registers: previous environment, continuation, their number. */
  const HEADER := 3

  type Words = seq<nat>

  /** An environment in use. */
  datatype Frame = Frame(loc: nat, cont: nat, ys: nat) {
    /** The end of its record, with the word for the old top of stack. */
    function End(): nat { loc + HEADER + ys + 1 }

    /** Its header or one of its Y registers. */
    predicate Has(k: int) { loc <= k < loc + HEADER + ys }
  }

  /** What a choice point saves of the control state. */
  datatype Choice = Choice(currentEnvironment: nat, envStackTop: nat, continuationInstr: nat)

  // ------------------------------------------------------------------
  // Specification
  // ------------------------------------------------------------------

  ghost predicate IsFrame(w: Words, f: Frame) {
    f.End() <= |w| && w[f.loc + 1] == f.cont && w[f.loc + 2] == f.ys
  }

  /** The frames fs, innermost first, are in w: each is linked to the next and above it. */
  ghost predicate Chained(w: Words, fs: seq<Frame>) {
    && |fs| > 0 && (forall k :: 0 <= k < |fs| ==> IsFrame(w, fs[k]))
    && (forall j, k :: 0 <= j < k < |fs| ==> fs[k].End() <= fs[j].loc)
    && forall k :: 0 <= k < |fs| - 1 ==> w[fs[k].loc] == fs[k + 1].loc
  }

  /** The frames of fs below t are among those of gs. */
  ghost predicate Within(fs: seq<Frame>, t: nat, gs: seq<Frame>) {
    forall f :: f in fs && f.loc < t ==> f in gs
  }

  /** Choice point c keeps the frames gs; the bottom of the choice stack keeps none. */
  ghost predicate Keeps(w: Words, c: Choice, gs: seq<Frame>) {
    if gs == [] then c.envStackTop == 0
    else Chained(w, gs) && c.currentEnvironment == gs[0].loc && gs[0].End() <= c.envStackTop <= |w|
  }

  /** Every choice point keeps its frames, tops grow, and what a younger choice point or the current
      environment has below an older top is kept by the older choice point too. */
  ghost predicate StackOk(w: Words, fs: seq<Frame>, cs: seq<Choice>, kept: seq<seq<Frame>>) {
    && Chained(w, fs) && |kept| == |cs| > 0
    && (forall i :: 0 <= i < |cs| ==> Keeps(w, cs[i], kept[i]) && Within(fs, cs[i].envStackTop, kept[i]) && (i > 0 ==> kept[i] != []))
    && forall i, j :: 0 <= i < j < |cs| ==>
         cs[i].envStackTop <= cs[j].envStackTop && Within(kept[j], cs[i].envStackTop, kept[i])
  }

  /** Words from a on are free: a is past the current environment and every top. */
  ghost predicate Free(fs: seq<Frame>, cs: seq<Choice>, a: nat) {
    && (forall f :: f in fs ==> f.End() <= a)
    && forall i :: 0 <= i < |cs| ==> cs[i].envStackTop <= a
  }

  /** Where the next environment goes: above the last choice point's top if that protects the
      current environment, else right after the current environment. */
  function NextTop(env: nat, ys: nat, top: nat): nat {
    if env < top then top else env + HEADER + ys + 1
  }

  lemma FirstIsHighest(w: Words, fs: seq<Frame>)
    requires Chained(w, fs)
    ensures forall f :: f in fs ==> f.End() <= fs[0].End()
  {
    forall f | f in fs ensures f.End() <= fs[0].End() {
      var k :| 0 <= k < |fs| && fs[k] == f;
      if k > 0 { assert fs[k].End() <= fs[0].loc; }
    }
  }

  /** There is room for a new environment where it is put. */
  lemma NextTopIsFree(w: Words, fs: seq<Frame>, cs: seq<Choice>, kept: seq<seq<Frame>>)
    requires StackOk(w, fs, cs, kept)
    ensures Free(fs, cs, NextTop(fs[0].loc, fs[0].ys, cs[|cs| - 1].envStackTop))
    ensures NextTop(fs[0].loc, fs[0].ys, cs[|cs| - 1].envStackTop) <= |w|
  {
    var n := |cs| - 1;
    FirstIsHighest(w, fs);
    if fs[0].loc < cs[n].envStackTop {
      assert fs[0] in fs && fs[0] in kept[n];
      FirstIsHighest(w, kept[n]);
    }
  }

  /** It is the first place past all of them. */
  lemma NextTopIsLeast(w: Words, fs: seq<Frame>, cs: seq<Choice>, kept: seq<seq<Frame>>, a: nat)
    requires StackOk(w, fs, cs, kept) && Free(fs, cs, a)
    ensures NextTop(fs[0].loc, fs[0].ys, cs[|cs| - 1].envStackTop) <= a
  {
    assert fs[0] in fs && fs[0].End() == fs[0].loc + 3 + fs[0].ys + 1;
  }

  /** Two memories agree below a. */
  ghost predicate SameBelow(w: Words, w': Words, a: nat) {
    |w| == |w'| && a <= |w| && forall k :: 0 <= k < a ==> w'[k] == w[k]
  }

  lemma ChainedBelow(w: Words, w': Words, fs: seq<Frame>, a: nat)
    requires Chained(w, fs) && SameBelow(w, w', a) && fs[0].End() <= a
    ensures Chained(w', fs)
  {
    FirstIsHighest(w, fs);
    forall k | 0 <= k < |fs| ensures IsFrame(w', fs[k]) && w'[fs[k].loc] == w[fs[k].loc] { assert fs[k] in fs; }
  }

  /** Writing where the stack is free harms no frame in use, whoever uses it. */
  lemma PushedOk(w: Words, w': Words, fs: seq<Frame>, cs: seq<Choice>, kept: seq<seq<Frame>>, a: nat, f: Frame)
    requires StackOk(w, fs, cs, kept) && Free(fs, cs, a) && SameBelow(w, w', a)
    requires f.loc == a && IsFrame(w', f) && w'[a] == fs[0].loc
    ensures StackOk(w', [f] + fs, cs, kept)
  {
    hide Chained, Keeps;
    FrontIn(w, fs);
    ChainedBelow(w, w', fs, a);
    PushedChained(w', fs, f);
    forall i | 0 <= i < |cs| ensures Keeps(w', cs[i], kept[i]) && Within([f] + fs, cs[i].envStackTop, kept[i]) {
      KeepsBelow(w, w', cs[i], kept[i], a);
    }
  }

  lemma FrontIn(w: Words, fs: seq<Frame>)
    requires Chained(w, fs)
    ensures |fs| > 0 && fs[0] in fs
  {
  }

  lemma KeepsBelow(w: Words, w': Words, c: Choice, gs: seq<Frame>, a: nat)
    requires Keeps(w, c, gs) && SameBelow(w, w', a) && c.envStackTop <= a
    ensures Keeps(w', c, gs)
  {
    if gs != [] { ChainedBelow(w, w', gs, a); }
  }

  lemma PushedChained(w: Words, fs: seq<Frame>, f: Frame)
    requires Chained(w, fs) && IsFrame(w, f) && w[f.loc] == fs[0].loc && forall g :: g in fs ==> g.End() <= f.loc
    ensures Chained(w, [f] + fs)
  {
    var gs := [f] + fs;
    assert forall k :: 0 < k < |gs| ==> gs[k] == fs[k - 1] && gs[k] in fs;
  }

  lemma PoppedOk(w: Words, fs: seq<Frame>, cs: seq<Choice>, kept: seq<seq<Frame>>)
    requires StackOk(w, fs, cs, kept) && |fs| > 1
    ensures StackOk(w, fs[1..], cs, kept) && w[fs[0].loc] == fs[1].loc
  {
    assert forall f :: f in fs[1..] ==> f in fs;
    assert Chained(w, fs[1..]);
  }

  /** A write to the current environment, past its header, or of the number of its Y registers when
      no choice point protects it. */
  lemma TouchedChained(w: Words, fs: seq<Frame>, a: nat, x: nat)
    requires Chained(w, fs) && fs[0].loc + HEADER <= a < fs[0].End()
    ensures Chained(w[a := x], fs)
  {
    forall k | 0 < k < |fs| ensures fs[k].End() <= fs[0].loc {}
  }

  lemma TouchedKeeps(w: Words, c: Choice, gs: seq<Frame>, f: Frame, a: nat, x: nat)
    requires Keeps(w, c, gs) && f.loc + HEADER <= a < f.End() <= |w| && (f.loc < c.envStackTop ==> f in gs)
    ensures Keeps(w[a := x], c, gs)
  {
    if gs == [] {
    } else if f.loc < c.envStackTop {
      var j :| 0 <= j < |gs| && gs[j] == f;
      forall k | 0 <= k < |gs| ensures IsFrame(w[a := x], gs[k]) && w[a := x][gs[k].loc] == w[gs[k].loc] {
        assert IsFrame(w, gs[k]);
        if k < j { assert gs[j].End() <= gs[k].loc; } else if j < k { assert gs[k].End() <= gs[j].loc; }
      }
    } else {
      FirstIsHighest(w, gs);
      assert SameBelow(w, w[a := x], c.envStackTop) || c.envStackTop > |w|;
      forall k | 0 <= k < |gs| ensures IsFrame(w[a := x], gs[k]) && w[a := x][gs[k].loc] == w[gs[k].loc] {
        assert IsFrame(w, gs[k]) && gs[k] in gs;
      }
    }
  }

  lemma TouchedOk(w: Words, fs: seq<Frame>, cs: seq<Choice>, kept: seq<seq<Frame>>, a: nat, x: nat)
    requires StackOk(w, fs, cs, kept) && fs[0].loc + HEADER <= a < fs[0].End()
    ensures a < |w| && StackOk(w[a := x], fs, cs, kept)
  {
    FrontIn(w, fs);
    assert IsFrame(w, fs[0]);
    TouchedChained(w, fs, a, x);
    hide Chained, Keeps;
    forall i | 0 <= i < |cs| ensures Keeps(w[a := x], cs[i], kept[i]) {
      TouchedKeeps(w, cs[i], kept[i], fs[0], a, x);
    }
  }

  /** The current environment, which no choice point protects, is left with fewer Y registers. */
  lemma TrimmedOk(w: Words, w': Words, fs: seq<Frame>, cs: seq<Choice>, kept: seq<seq<Frame>>, ys: nat)
    requires StackOk(w, fs, cs, kept) && cs[|cs| - 1].envStackTop <= fs[0].loc && ys <= fs[0].ys
    requires |w'| == |w| && IsFrame(w', fs[0].(ys := ys)) && w'[fs[0].loc] == w[fs[0].loc] && SameBelow(w, w', fs[0].loc)
    ensures StackOk(w', [fs[0].(ys := ys)] + fs[1..], cs, kept)
  {
    var gs := [fs[0].(ys := ys)] + fs[1..];
    assert Chained(w', gs) by { TrimmedChained(w, w', fs, ys); }
    hide Chained, Keeps;
    forall i | 0 <= i < |cs| ensures Keeps(w', cs[i], kept[i]) && Within(gs, cs[i].envStackTop, kept[i]) {
      assert cs[i].envStackTop <= cs[|cs| - 1].envStackTop;
      KeepsBelow(w, w', cs[i], kept[i], fs[0].loc);
      assert forall f :: f in gs && f.loc < cs[i].envStackTop ==> f in fs;
    }
  }

  lemma TrimmedChained(w: Words, w': Words, fs: seq<Frame>, ys: nat)
    requires Chained(w, fs) && ys <= fs[0].ys && |w'| == |w| && IsFrame(w', fs[0].(ys := ys))
    requires w'[fs[0].loc] == w[fs[0].loc] && SameBelow(w, w', fs[0].loc)
    ensures Chained(w', [fs[0].(ys := ys)] + fs[1..])
  {
    var gs := [fs[0].(ys := ys)] + fs[1..];
    forall k | 0 < k < |gs| ensures gs[k] == fs[k] && IsFrame(w', gs[k]) && w'[gs[k].loc] == w[gs[k].loc] {
      assert fs[k].End() <= fs[0].loc && IsFrame(w, fs[k]);
    }
  }

  lemma ChosenOk(w: Words, fs: seq<Frame>, cs: seq<Choice>, kept: seq<seq<Frame>>, top: nat, cont: nat)
    requires StackOk(w, fs, cs, kept) && Free(fs, cs, top) && top <= |w|
    ensures StackOk(w, fs, cs + [Choice(fs[0].loc, top, cont)], kept + [fs])
  {
    hide Chained;
    FrontIn(w, fs);
    var cs', kept' := cs + [Choice(fs[0].loc, top, cont)], kept + [fs];
    forall i | 0 <= i < |cs'| ensures Keeps(w, cs'[i], kept'[i]) && Within(fs, cs'[i].envStackTop, kept'[i]) {
      if i < |cs| { assert cs'[i] == cs[i] && kept'[i] == kept[i]; }
    }
    forall i, j | 0 <= i < j < |cs'| ensures cs'[i].envStackTop <= cs'[j].envStackTop && Within(kept'[j], cs'[i].envStackTop, kept'[i]) {
      assert cs'[i] == cs[i] && kept'[i] == kept[i];
      if j < |cs| { assert cs'[j] == cs[j] && kept'[j] == kept[j]; }
    }
  }

  lemma CutOk(w: Words, fs: seq<Frame>, cs: seq<Choice>, kept: seq<seq<Frame>>, k: nat)
    requires StackOk(w, fs, cs, kept) && 0 < k <= |cs|
    ensures StackOk(w, fs, cs[..k], kept[..k])
  {
    hide Chained, Keeps, Within;
  }

  lemma BackOk(w: Words, fs: seq<Frame>, cs: seq<Choice>, kept: seq<seq<Frame>>)
    requires StackOk(w, fs, cs, kept) && |cs| > 1
    ensures |kept| == |cs| && StackOk(w, kept[|cs| - 1], cs, kept) && |kept[|cs| - 1]| > 0
    ensures 0 < cs[|cs| - 1].envStackTop <= |w| && cs[|cs| - 1].currentEnvironment == kept[|cs| - 1][0].loc
  {
    hide Chained;
    var n := |cs| - 1;
    forall i | 0 <= i < |cs| ensures Within(kept[n], cs[i].envStackTop, kept[i]) {}
  }

  // ------------------------------------------------------------------
  // The words of the environments kept
  // ------------------------------------------------------------------

  /** The words of the environments that choice point i keeps are those of snaps[i], the memory when it
      was made, but for the Y registers in written[i]. */
  ghost predicate WordsHeld(w: Words, kept: seq<seq<Frame>>, snaps: seq<Words>, written: seq<set<nat>>) {
    && |snaps| == |written| == |kept|
    && forall i :: 0 <= i < |kept| ==> OneHeld(w, kept[i], snaps[i], written[i])
  }

  ghost predicate OneHeld(w: Words, fs: seq<Frame>, snap: Words, written: set<nat>) {
    |snap| == |w| && forall f, k :: f in fs && f.Has(k) && 0 <= k < |w| && k !in written ==> w[k] == snap[k]
  }

  /** Headers and Y registers of the frames fs are as they were. */
  ghost predicate Intact(w: Words, w': Words, fs: seq<Frame>) {
    |w'| == |w| && forall f, k :: f in fs && f.Has(k) && 0 <= k < |w| ==> w'[k] == w[k]
  }

  lemma IntactBelow(w: Words, w': Words, fs: seq<Frame>, a: nat)
    requires SameBelow(w, w', a) && forall f :: f in fs ==> f.End() <= a
    ensures Intact(w, w', fs)
  {
  }

  lemma HeldIntact(w: Words, w': Words, kept: seq<seq<Frame>>, snaps: seq<Words>, written: seq<set<nat>>)
    requires WordsHeld(w, kept, snaps, written) && forall i :: 0 <= i < |kept| ==> Intact(w, w', kept[i])
    ensures WordsHeld(w', kept, snaps, written)
  {
    forall i | 0 <= i < |kept| ensures OneHeld(w', kept[i], snaps[i], written[i]) {
      assert OneHeld(w, kept[i], snaps[i], written[i]) && Intact(w, w', kept[i]);
    }
  }

  /** Frames kept end below the top of their choice point. */
  lemma KeptBelow(w: Words, fs: seq<Frame>, cs: seq<Choice>, kept: seq<seq<Frame>>, a: nat)
    requires StackOk(w, fs, cs, kept) && forall i :: 0 <= i < |cs| ==> cs[i].envStackTop <= a
    ensures forall i, f :: 0 <= i < |kept| && f in kept[i] ==> f.End() <= a
  {
    hide Chained;
    forall i, f | 0 <= i < |kept| && f in kept[i] ensures f.End() <= a {
      assert Keeps(w, cs[i], kept[i]);
      FirstIsHighest(w, kept[i]);
    }
  }

  lemma AllIntactBelow(w: Words, w': Words, fs: seq<Frame>, cs: seq<Choice>, kept: seq<seq<Frame>>, a: nat)
    requires StackOk(w, fs, cs, kept) && SameBelow(w, w', a) && forall i :: 0 <= i < |cs| ==> cs[i].envStackTop <= a
    ensures forall i :: 0 <= i < |kept| ==> Intact(w, w', kept[i])
  {
    KeptBelow(w, fs, cs, kept, a);
    hide StackOk, Intact;
    forall i | 0 <= i < |kept| ensures Intact(w, w', kept[i]) { IntactBelow(w, w', kept[i], a); }
  }

  ghost function WithWritten(written: seq<set<nat>>, a: nat): seq<set<nat>> {
    seq(|written|, i requires 0 <= i < |written| => written[i] + {a})
  }

  lemma HeldWritten(w: Words, kept: seq<seq<Frame>>, snaps: seq<Words>, written: seq<set<nat>>, a: nat, x: nat)
    requires WordsHeld(w, kept, snaps, written) && a < |w|
    ensures WordsHeld(w[a := x], kept, snaps, WithWritten(written, a))
  {
    forall i | 0 <= i < |kept| ensures OneHeld(w[a := x], kept[i], snaps[i], WithWritten(written, a)[i]) {
      assert OneHeld(w, kept[i], snaps[i], written[i]);
    }
  }

  lemma HeldChosen(w: Words, fs: seq<Frame>, kept: seq<seq<Frame>>, snaps: seq<Words>, written: seq<set<nat>>)
    requires WordsHeld(w, kept, snaps, written)
    ensures WordsHeld(w, kept + [fs], snaps + [w], written + [{}])
  {
    hide OneHeld;
    assert OneHeld(w, fs, w, {}) by { HeldNow(w, fs); }
  }

  lemma HeldNow(w: Words, fs: seq<Frame>)
    ensures OneHeld(w, fs, w, {})
  {
  }

  lemma HeldCut(w: Words, kept: seq<seq<Frame>>, snaps: seq<Words>, written: seq<set<nat>>, k: nat)
    requires WordsHeld(w, kept, snaps, written) && k <= |kept|
    ensures WordsHeld(w, kept[..k], snaps[..k], written[..k])
  {
    hide OneHeld;
  }

  /** The frames of the chain do not overlap, so a Y register of the first is in no other. */
  lemma OthersIntact(w: Words, fs: seq<Frame>, a: nat, x: nat)
    requires Chained(w, fs) && fs[0].loc + HEADER <= a < fs[0].End() && a < |w|
    ensures Intact(w, w[a := x], fs[1..])
  {
    forall f, k | f in fs[1..] && f.Has(k) ensures k != a {
      var j :| 0 < j < |fs| && fs[j] == f;
      assert fs[j].End() <= fs[0].loc;
    }
  }

  /** Nor is it in an environment that a choice point keeps, if that is another one. */
  lemma KeptOthers(w: Words, fs: seq<Frame>, cs: seq<Choice>, kept: seq<seq<Frame>>, a: nat)
    requires StackOk(w, fs, cs, kept) && fs[0].loc + HEADER <= a < fs[0].End()
    ensures forall i, f :: 0 <= i < |kept| && f in kept[i] && f != fs[0] ==> !f.Has(a)
  {
    forall i, f | 0 <= i < |kept| && f in kept[i] && f != fs[0] ensures !f.Has(a) {
      assert Keeps(w, cs[i], kept[i]) && Within(fs, cs[i].envStackTop, kept[i]) && fs[0] in fs;
      FirstIsHighest(w, kept[i]);
      if fs[0].loc < cs[i].envStackTop { ApartInChain(w, kept[i], f, fs[0]); }
    }
  }

  lemma ApartInChain(w: Words, fs: seq<Frame>, f: Frame, g: Frame)
    requires Chained(w, fs) && f in fs && g in fs && f != g
    ensures f.End() <= g.loc || g.End() <= f.loc
  {
    var j :| 0 <= j < |fs| && fs[j] == f;
    var k :| 0 <= k < |fs| && fs[k] == g;
    if j < k { assert fs[k].End() <= fs[j].loc; } else { assert fs[j].End() <= fs[k].loc; }
  }

  // ------------------------------------------------------------------
  // The machine
  // ------------------------------------------------------------------

  class Machine {
    const stack: array<nat>
    var top: nat
    var currentEnvironment: nat
    var continuationInstr: nat
    var choices: seq<Choice>
    ghost var frames: seq<Frame>     // the current environment and its continuations
    ghost var kept: seq<seq<Frame>>  // those when each choice point was made
    ghost var snaps: seq<Words>      // the words then
    ghost var written: seq<set<nat>> // the Y registers written since

    ghost predicate Valid()
      reads this, stack
    {
      && StackOk(stack[..], frames, choices, kept) && frames[0].loc == currentEnvironment
      && WordsHeld(stack[..], kept, snaps, written) && 0 < top <= stack.Length
    }

    /** InitThread */
    constructor (words: nat)
      requires words >= HEADER + 1
      ensures Valid() && frames == [Frame(0, 0, 0)] && choices == [Choice(0, 0, 0)] && kept == [[]] && fresh(stack)
      ensures |snaps| == 1 && written == [{}] && top == 4 && currentEnvironment == continuationInstr == 0
    {
      stack := new nat[words](_ => 0);
      top, currentEnvironment, continuationInstr := HEADER + 1, 0, 0;
      choices, frames, kept, written := [Choice(0, 0, 0)], [Frame(0, 0, 0)], [[]], [{}];
      new;
      snaps := [stack[..]];
    }

    /** Where the next environment goes. */
    method NextEnvironment() returns (a: nat)
      requires Valid()
      ensures Free(frames, choices, a) && 0 < a <= stack.Length
      ensures |frames| > 0 && |choices| > 0 && a == NextTop(frames[0].loc, frames[0].ys, choices[|choices| - 1].envStackTop)
    {
      hide StackOk, Free;
      CurrentIn(stack[..], frames, choices, kept);
      NextTopIsFree(stack[..], frames, choices, kept);
      var envTop := choices[|choices| - 1].envStackTop;
      if currentEnvironment < envTop {
        a := envTop;
      } else {
        a := currentEnvironment + HEADER + stack[currentEnvironment + 2] + 1;
      }
    }

    /** ALLOCATE; false when the stack is full. */
    method Allocate(n: nat) returns (ok: bool)
      requires Valid()
      modifies this`top, this`currentEnvironment, this`frames, stack
      ensures Valid() && |old(frames)| > 0 && |choices| > 0
      ensures var a := NextTop(old(frames)[0].loc, old(frames)[0].ys, choices[|choices| - 1].envStackTop);
              && Free(old(frames), choices, a) && (forall b: nat :: Free(old(frames), choices, b) ==> a <= b)
              && (ok <==> a + HEADER + n + 1 <= stack.Length)
              && (if ok then top == a + HEADER + n + 1 && stack[top - 1] == currentEnvironment == a else top == old(top))
              && (ok ==> stack[a] == old(currentEnvironment) && stack[a + 1] == continuationInstr && stack[a + 2] == n
                         && forall k :: a + 3 <= k < a + 3 + n ==> stack[k] == 0)
              && frames == (if ok then [Frame(a, continuationInstr, n)] + old(frames) else old(frames))
              && forall k :: 0 <= k < a && k < stack.Length ==> stack[k] == old(stack[k])
      ensures Intact(old(stack[..]), stack[..], old(frames)) && forall i :: 0 <= i < |kept| ==> Intact(old(stack[..]), stack[..], kept[i])
    {
      hide StackOk, Free, NextTop, Intact, WordsHeld;
      AllLeast(stack[..], frames, choices, kept);
      AllIntact(stack[..], frames, kept);
      var a := NextEnvironment();
      ok := a + HEADER + n + 1 <= stack.Length;
      if ok {
        PushEnvironment(n, a);
      }
    }

    /** push: the new environment overlaps none that is in use or kept. */
    method PushEnvironment(n: nat, a: nat)
      requires Valid() && Free(frames, choices, a) && a + HEADER + n + 1 <= stack.Length
      modifies this`top, this`currentEnvironment, this`frames, stack
      ensures Valid() && frames == [Frame(a, continuationInstr, n)] + old(frames) && currentEnvironment == a
      ensures top == a + HEADER + n + 1 && stack[top - 1] == a
      ensures stack[a] == old(currentEnvironment) && stack[a + 1] == continuationInstr && stack[a + 2] == n
      ensures forall k :: a + 3 <= k < a + 3 + n ==> stack[k] == 0
      ensures forall k :: 0 <= k < a ==> stack[k] == old(stack[k])
      ensures Intact(old(stack[..]), stack[..], old(frames)) && forall i :: 0 <= i < |kept| ==> Intact(old(stack[..]), stack[..], kept[i])
    {
      hide StackOk, WordsHeld, Intact;
      ghost var w: Words := stack[..];
      CurrentIn(w, frames, choices, kept);
      stack[a], stack[a + 1], stack[a + 2] := currentEnvironment, continuationInstr, n;
      for i := 0 to n
        modifies stack
        invariant forall k :: 0 <= k < a ==> stack[k] == w[k]
        invariant stack[a] == currentEnvironment && stack[a + 1] == continuationInstr && stack[a + 2] == n
        invariant forall k :: a + 3 <= k < a + 3 + i ==> stack[k] == 0
      {
        stack[a + HEADER + i] := 0;
      }
      stack[a + HEADER + n] := a;
      top := a + HEADER + n + 1;
      var f := Frame(a, continuationInstr, n);
      PushedOk(w, stack[..], frames, choices, kept, a, f);
      IntactBelow(w, stack[..], frames, a);
      AllIntactBelow(w, stack[..], frames, choices, kept, a);
      HeldIntact(w, stack[..], kept, snaps, written);
      currentEnvironment := a;
      frames := [f] + frames;
    }

    /** DEALLOCATE */
    method Deallocate()
      requires Valid() && |frames| > 1
      modifies this`currentEnvironment, this`continuationInstr, this`frames
      ensures Valid() && frames == old(frames)[1..] && continuationInstr == old(frames)[0].cont
    {
      hide StackOk, WordsHeld;
      CurrentIn(stack[..], frames, choices, kept);
      PoppedOk(stack[..], frames, choices, kept);
      continuationInstr := stack[currentEnvironment + 1];
      currentEnvironment := stack[currentEnvironment];
      frames := frames[1..];
    }

    /** At a call: when the current environment is at the top and no choice point protects it, only
        its first n Y registers are left. */
    method TrimAtCall(n: nat, continuation: nat)
      requires Valid() && n <= frames[0].ys
      modifies this`top, this`continuationInstr, this`frames, stack
      ensures Valid() && continuationInstr == continuation
      ensures |old(frames)| > 0 && |choices| > 0
      ensures frames == if old(stack[top - 1]) == currentEnvironment && currentEnvironment >= choices[|choices| - 1].envStackTop
                        then [old(frames)[0].(ys := n)] + old(frames)[1..] else old(frames)
      ensures old(stack[top - 1]) == currentEnvironment ==> stack[top - 1] == currentEnvironment
      ensures top == if old(stack[top - 1]) == currentEnvironment && currentEnvironment >= choices[|choices| - 1].envStackTop
                        && old(frames)[0].ys != n
                     then currentEnvironment + HEADER + n + 2 else old(top)
      ensures var c := currentEnvironment;
              stack[..] == if old(stack[top - 1]) == c && c >= choices[|choices| - 1].envStackTop && old(frames)[0].ys != n
                           then old(stack[..])[c + 2 := n][c + HEADER + n + 1 := c] else old(stack[..])
      ensures Intact(old(stack[..]), stack[..], old(frames)[1..]) && forall i :: 0 <= i < |kept| ==> Intact(old(stack[..]), stack[..], kept[i])
    {
      hide StackOk, WordsHeld, Intact;
      AllIntact(stack[..], frames, kept);
      ghost var w: Words := stack[..];
      CurrentIn(w, frames, choices, kept);
      continuationInstr := continuation;
      if stack[top - 1] == currentEnvironment && currentEnvironment >= choices[|choices| - 1].envStackTop
         && stack[currentEnvironment + 2] != n
      {
        stack[currentEnvironment + 2] := n;
        stack[currentEnvironment + HEADER + n + 1] := currentEnvironment;
        top := currentEnvironment + HEADER + n + 2;
        TrimmedOk(w, stack[..], frames, choices, kept, n);
        assert stack[..] == w[currentEnvironment + 2 := n][currentEnvironment + HEADER + n + 1 := currentEnvironment];
        AllTops(w, frames, choices, kept, currentEnvironment);
        IntactBelow(w, stack[..], frames[1..], currentEnvironment);
        AllIntactBelow(w, stack[..], frames, choices, kept, currentEnvironment);
        HeldIntact(w, stack[..], kept, snaps, written);
        frames := [frames[0].(ys := n)] + frames[1..];
      } else {
        assert stack[currentEnvironment + 2] == frames[0].ys && frames == [frames[0]] + frames[1..];
      }
    }

    /** An environment that is allocated and comes to a call with no choice point in between is on top and
        protected by none, so it is trimmed, and the next one would go right after what is left. */
    method AllocateThenCall(n: nat, m: nat, continuation: nat) returns (ok: bool)
      requires Valid() && m <= n
      modifies this`top, this`currentEnvironment, this`continuationInstr, this`frames, stack
      ensures Valid() && |frames| > 0 && |choices| > 0
      ensures ok ==> frames[0].ys == m && frames[1..] == old(frames) && stack[top - 1] == currentEnvironment
      ensures ok ==> NextTop(frames[0].loc, frames[0].ys, choices[|choices| - 1].envStackTop) == frames[0].loc + 3 + m + 1
    {
      hide StackOk, WordsHeld, Intact;
      CurrentIn(stack[..], frames, choices, kept);
      ok := Allocate(n);
      if ok { TrimAtCall(m, continuation); }
    }

    /** A Y register of the current environment is written. */
    method SetY(i: nat, x: nat)
      requires Valid() && i < frames[0].ys
      modifies stack, this`written
      ensures Valid() && stack[..] == old(stack[..])[currentEnvironment + HEADER + i := x]
      ensures Intact(old(stack[..]), stack[..], frames[1..]) && written == WithWritten(old(written), currentEnvironment + HEADER + i)
      ensures forall j, f, k :: 0 <= j < |kept| && f in kept[j] && f != frames[0] && f.Has(k) && 0 <= k < stack.Length ==>
                stack[k] == old(stack[k])
    {
      hide StackOk, WordsHeld, Intact;
      ghost var w: Words := stack[..];
      CurrentIn(stack[..], frames, choices, kept);
      TouchedOk(w, frames, choices, kept, currentEnvironment + HEADER + i, x);
      ChainIn(w, frames, choices, kept);
      OthersIntact(w, frames, currentEnvironment + HEADER + i, x);
      KeptOthers(w, frames, choices, kept, currentEnvironment + HEADER + i);
      HeldWritten(w, kept, snaps, written, currentEnvironment + HEADER + i, x);
      written := WithWritten(written, currentEnvironment + HEADER + i);
      stack[currentEnvironment + HEADER + i] := x;
      assert stack[..] == w[currentEnvironment + HEADER + i := x];
    }

    /** pushChoicePoint, the environments */
    method PushChoicePoint()
      requires Valid()
      modifies this`choices, this`kept, this`snaps, this`written
      ensures Valid() && kept == old(kept) + [frames] && |frames| > 0 && |old(choices)| > 0
      ensures snaps == old(snaps) + [stack[..]] && written == old(written) + [{}]
      ensures choices == old(choices) + [Choice(currentEnvironment, NextTop(frames[0].loc, frames[0].ys, old(choices)[|old(choices)| - 1].envStackTop),
                                                continuationInstr)]
    {
      hide StackOk, Free;
      var a := NextEnvironment();
      ChosenOk(stack[..], frames, choices, kept, a, continuationInstr);
      HeldChosen(stack[..], frames, kept, snaps, written);
      choices := choices + [Choice(currentEnvironment, a, continuationInstr)];
      kept, snaps, written := kept + [frames], snaps + [stack[..]], written + [{}];
    }

    /** backtrackTo the last choice point: the environments current then are, with their links,
        continuations, sizes and all Y registers that have not been written since. */
    method Backtrack()
      requires Valid() && |choices| > 1
      modifies this`top, this`currentEnvironment, this`continuationInstr, this`frames
      ensures Valid() && |kept| == |choices| && frames == kept[|kept| - 1]
      ensures continuationInstr == choices[|choices| - 1].continuationInstr && top == choices[|choices| - 1].envStackTop
      ensures |snaps| == |written| == |choices| && OneHeld(stack[..], frames, snaps[|snaps| - 1], written[|snaps| - 1])
      ensures |snaps[|snaps| - 1]| == stack.Length && forall f :: f in frames ==> f.loc + 3 + f.ys < stack.Length
      ensures forall f, k :: f in frames && f.loc <= k < f.loc + 3 + f.ys && k !in written[|snaps| - 1] ==>
                stack[k] == snaps[|snaps| - 1][k]
    {
      hide StackOk, OneHeld;
      BackOk(stack[..], frames, choices, kept);
      var c := choices[|choices| - 1];
      currentEnvironment, top, continuationInstr := c.currentEnvironment, c.envStackTop, c.continuationInstr;
      frames := kept[|kept| - 1];
      HeldIs(stack[..], frames, choices, kept, snaps[|snaps| - 1], written[|snaps| - 1]);
    }

    /** Choice points are popped or cut. */
    method Cut(k: nat)
      requires Valid() && 0 < k <= |choices|
      modifies this`choices, this`kept, this`snaps, this`written
      ensures Valid() && choices == old(choices)[..k] && |old(kept)| == |old(choices)| && kept == old(kept)[..k]
      ensures |old(snaps)| == |old(written)| == |old(choices)| && snaps == old(snaps)[..k] && written == old(written)[..k]
    {
      hide StackOk, OneHeld;
      CutOk(stack[..], frames, choices, kept, k);
      CurrentIn(stack[..], frames, choices, kept);
      HeldCut(stack[..], kept, snaps, written, k);
      choices, kept, snaps, written := choices[..k], kept[..k], snaps[..k], written[..k];
    }
  }

  lemma CurrentIn(w: Words, fs: seq<Frame>, cs: seq<Choice>, kept: seq<seq<Frame>>)
    requires StackOk(w, fs, cs, kept)
    ensures |fs| > 0 && IsFrame(w, fs[0]) && |kept| == |cs| > 0 && fs[0].End() <= |w|
  {
  }

  /** The words held are the three words of the header and the Y registers. */
  lemma HeldIs(w: Words, fs: seq<Frame>, cs: seq<Choice>, kept: seq<seq<Frame>>, snap: Words, written: set<nat>)
    requires StackOk(w, fs, cs, kept) && OneHeld(w, fs, snap, written)
    ensures |snap| == |w| && forall f :: f in fs ==> f.loc + 3 + f.ys < |w|
    ensures forall f, k :: f in fs && f.loc <= k < f.loc + 3 + f.ys && k !in written ==> w[k] == snap[k]
  {
    FirstIsHighest(w, fs);
    assert IsFrame(w, fs[0]);
    forall f, k | f in fs && f.loc <= k < f.loc + 3 + f.ys && k !in written ensures w[k] == snap[k] {
      assert f.End() <= fs[0].End() && f.Has(k);
    }
    hide StackOk, OneHeld, Chained;
  }

  lemma ChainIn(w: Words, fs: seq<Frame>, cs: seq<Choice>, kept: seq<seq<Frame>>)
    requires StackOk(w, fs, cs, kept)
    ensures Chained(w, fs)
  {
  }

  lemma AllLeast(w: Words, fs: seq<Frame>, cs: seq<Choice>, kept: seq<seq<Frame>>)
    requires StackOk(w, fs, cs, kept)
    ensures forall a: nat :: Free(fs, cs, a) ==> NextTop(fs[0].loc, fs[0].ys, cs[|cs| - 1].envStackTop) <= a
  {
    hide Free, NextTop, StackOk;
    CurrentIn(w, fs, cs, kept);
    forall a: nat | Free(fs, cs, a) ensures NextTop(fs[0].loc, fs[0].ys, cs[|cs| - 1].envStackTop) <= a {
      NextTopIsLeast(w, fs, cs, kept, a);
    }
  }

  lemma AllIntact(w: Words, fs: seq<Frame>, kept: seq<seq<Frame>>)
    ensures Intact(w, w, fs) && (|fs| > 0 ==> Intact(w, w, fs[1..])) && forall i :: 0 <= i < |kept| ==> Intact(w, w, kept[i])
  {
  }

  /** An environment above the last top is above all tops, and above the rest of its chain. */
  lemma AllTops(w: Words, fs: seq<Frame>, cs: seq<Choice>, kept: seq<seq<Frame>>, a: nat)
    requires StackOk(w, fs, cs, kept) && fs[0].loc == a && cs[|cs| - 1].envStackTop <= a
    ensures forall i :: 0 <= i < |cs| ==> cs[i].envStackTop <= a
    ensures forall f :: f in fs[1..] ==> f.End() <= a
  {
    hide Keeps, Within;
  }
}
