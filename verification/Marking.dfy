/** The marking phase: an explicit-stack traversal that sets the mark bit of every object
    reachable from one pointer.
 */
module Marking {
  import opened HeapWords

  // ------------------------------------------------------------------
  // Specification: reachability in the heap seen as a graph
  // ------------------------------------------------------------------

  /** objs are the starts of the objects below top.  Every word of an object that is neither
      a number nor a string is an address and, when it lies in the used heap, an object. */
  ghost predicate WellFormed(h: seq<Word>, top: nat, objs: set<int>) {
    && top <= |h|
    && forall o :: o in objs ==> ObjectOk(h, top, objs, o)
  }

  ghost predicate ObjectOk(h: seq<Word>, top: nat, objs: set<int>, o: int)
    requires top <= |h|
  {
    && 0 <= o < top && h[o].Tag? && o + h[o].Size() <= top
    && (HasPointers(h[o]) ==>
          && h[o].Size() >= 2
          && forall c :: o < c < o + h[o].Size() ==> PointerOk(h[c], top, objs))
  }

  predicate HasPointers(w: Word) { w.Tag? && !w.IsNumber() && !w.IsString() }

  predicate PointerOk(w: Word, top: nat, objs: set<int>) {
    w.Addr? && (0 <= w.cell < top ==> w.cell in objs)
  }

  /** Object a stores the address of the object b. */
  ghost predicate Edge(h: seq<Word>, top: nat, a: int, b: int) {
    && 0 <= a < top <= |h| && 0 <= b < top && HasPointers(h[a]) && a + h[a].Size() <= top
    && exists c :: a < c < a + h[a].Size() && h[c] == Addr(b)
  }

  ghost predicate IsPath(h: seq<Word>, top: nat, p: seq<int>) {
    && |p| > 0 && 0 <= p[0] < top
    && forall i :: 0 <= i < |p| - 1 ==> Edge(h, top, p[i], p[i + 1])
  }

  ghost predicate Reachable(h: seq<Word>, top: nat, a: int, b: int) {
    exists p :: IsPath(h, top, p) && p[0] == a && p[|p| - 1] == b
  }

  /** Everything that can be reached from the address a, including the object at a itself. */
  ghost function ReachableFrom(h: seq<Word>, top: nat, a: int): (s: set<int>) {
    set b: int | 0 <= b < top && Reachable(h, top, a, b)
  }

  ghost predicate Closed(h: seq<Word>, top: nat, s: set<int>) {
    forall a, b :: a in s && Edge(h, top, a, b) ==> b in s
  }

  lemma ReachableSelf(h: seq<Word>, top: nat, a: int)
    requires 0 <= a < top
    ensures Reachable(h, top, a, a)
  {
    assert IsPath(h, top, [a]);
  }

  lemma ReachableStep(h: seq<Word>, top: nat, a: int, b: int, c: int)
    requires Reachable(h, top, a, b) && Edge(h, top, b, c)
    ensures Reachable(h, top, a, c)
  {
    var p :| IsPath(h, top, p) && p[0] == a && p[|p| - 1] == b;
    var q := p + [c];
    assert forall i :: 0 <= i < |q| - 1 ==> q[i] == p[i];
    assert IsPath(h, top, q) && q[|q| - 1] == c;
  }

  /** A closed set that holds the first element of a path holds the last one. */
  lemma {:induction false} ClosedAlongPath(h: seq<Word>, top: nat, s: set<int>, p: seq<int>)
    requires Closed(h, top, s) && IsPath(h, top, p) && p[0] in s
    ensures p[|p| - 1] in s
    decreases |p|
  {
    if |p| > 1 {
      assert Edge(h, top, p[0], p[1]);
      var q := p[1..];
      assert forall i :: 0 <= i < |q| ==> q[i] == p[i + 1];
      forall i | 0 <= i < |q| - 1
        ensures Edge(h, top, q[i], q[i + 1])
      {
        assert q[i] == p[i + 1];
      }
      ClosedAlongPath(h, top, s, q);
    }
  }

  /** A set that only adds reachable objects to a closed set, holds the start and is closed is
      exactly the closed set plus everything reachable. */
  lemma ClosureIsReachability(h: seq<Word>, top: nat, before: set<int>, after: set<int>, a: int)
    requires before <= after
    requires 0 <= a < top ==> a in after
    requires forall b :: b in after && b !in before ==> 0 <= b < top && Reachable(h, top, a, b)
    requires Closed(h, top, after)
    ensures after == before + ReachableFrom(h, top, a)
  {
    forall b | b in ReachableFrom(h, top, a)
      ensures b in after
    {
      var p :| IsPath(h, top, p) && p[0] == a && p[|p| - 1] == b;
      ClosedAlongPath(h, top, after, p);
    }
  }

  /** The words of every kind of object. */
  lemma KindSizes(w: Word)
    requires w.Tag?
    ensures match w.kind
            case Var => w.Size() == 2
            case VarExtended => w.Size() == 5
            case ObjVar => w.Size() == 5
            case Short => w.Size() == 1
            case Long => w.Size() == 2
            case Double => w.Size() == 2
            case Str => w.Size() == w.n + 1
            case Struct => w.Size() == w.n + 2
            case Cons => w.Size() == 3
            case Quant => w.Size() == 4
            case Subst => w.Size() == 3
            case SubBlock => w.Size() == 2 * w.n + 1
  {
  }

  /** A closed set has every object that a word of one of its variables, structures, lists, quantified terms,
      substitutions and substitution blocks addresses; numbers and strings lead nowhere. */
  lemma MarkedParts(h: seq<Word>, top: nat, objs: set<int>, s: set<int>, m: int, k: int)
    requires WellFormed(h, top, objs) && Closed(h, top, s) && m in s && m in objs
    ensures 0 <= m < top && h[m].Tag? && m + h[m].Size() <= top <= |h|
    ensures 1 <= k < h[m].Size() ==>
              match h[m].kind
              case Short => true
              case Long => true
              case Double => true
              case Str => true
              case _ => h[m + k].Addr? && (0 <= h[m + k].cell < top ==> h[m + k].cell in s)
    ensures h[m].kind.Short? || h[m].kind.Long? || h[m].kind.Double? || h[m].kind.Str? ==> forall b :: !Edge(h, top, m, b)
  {
    assert ObjectOk(h, top, objs, m);
    if HasPointers(h[m]) && 1 <= k < h[m].Size() && 0 <= h[m + k].cell < top { assert Edge(h, top, m, h[m + k].cell); }
  }

  // ------------------------------------------------------------------
  // The marker
  // ------------------------------------------------------------------

  class ObjectsStack {
    var items: seq<Word>

    constructor ()
      ensures items == []
    {
      items := [];
    }

    method Push(w: Word)
      modifies this
      ensures items == old(items) + [w]
    {
      items := items + [w];
    }

    method Pop() returns (w: Word)
      requires items != []
      modifies this
      ensures items == old(items)[..|old(items)| - 1] && w == old(items)[|old(items)| - 1]
    {
      w := items[|items| - 1];
      items := items[..|items| - 1];
    }
  }

  /** The state of the traversal from root: before is the marked set on entry, term the address
      about to be looked at, pushed the part of the stack that belongs to this call.  Every edge
      of a marked object leads to a marked object, to term or to an entry of pushed. */
  ghost predicate Tracing(h: seq<Word>, top: nat, objs: set<int>, root: int, before: set<int>,
                          marks: set<int>, term: Word, pushed: seq<Word>) {
    && before <= marks <= objs
    && PointerOk(term, top, objs)
    && (forall w :: w in pushed ==> PointerOk(w, top, objs))
    && (forall b :: 0 <= b < top && (Addr(b) == term || Addr(b) in pushed) ==> Reachable(h, top, root, b))
    && (forall b :: b in marks && b !in before ==> Reachable(h, top, root, b))
    && (forall a, b :: a in marks && Edge(h, top, a, b) ==> b in marks || Addr(b) == term || Addr(b) in pushed)
    && (0 <= root < top ==> root in marks || Addr(root) == term || Addr(root) in pushed)
  }

  lemma TracingInit(h: seq<Word>, top: nat, objs: set<int>, marks: set<int>, t: Word)
    requires WellFormed(h, top, objs) && PointerOk(t, top, objs)
    requires marks <= objs && Closed(h, top, marks)
    ensures Tracing(h, top, objs, t.cell, marks, marks, t, []) && t.Addr?
  {
    if 0 <= t.cell < top { ReachableSelf(h, top, t.cell); }
  }

  lemma TracingDone(h: seq<Word>, top: nat, objs: set<int>, root: int, before: set<int>,
                    marks: set<int>, term: Word)
    requires WellFormed(h, top, objs)
    requires Tracing(h, top, objs, root, before, marks, term, [])
    requires term.cell in marks || term.cell < 0 || term.cell >= top
    ensures marks <= objs && Closed(h, top, marks)
    ensures marks == before + ReachableFrom(h, top, root)
  {
    ClosureIsReachability(h, top, before, marks, root);
  }

  /** An address that is ignored, or whose object stores no pointer, is done with. */
  lemma TracingPop(h: seq<Word>, top: nat, objs: set<int>, root: int, before: set<int>,
                   marks: set<int>, term: Word, pushed: seq<Word>, next: Word, rest: seq<Word>)
    requires Tracing(h, top, objs, root, before, marks, term, pushed)
    requires term.cell in marks || term.cell < 0 || term.cell >= top
    requires pushed == rest + [next]
    ensures Tracing(h, top, objs, root, before, marks, next, rest) && next.Addr?
  {
    assert forall w :: w in pushed <==> w in rest || w == next;
  }

  lemma TracingLeaf(h: seq<Word>, top: nat, objs: set<int>, root: int, before: set<int>,
                    marks: set<int>, term: Word, pushed: seq<Word>)
    requires WellFormed(h, top, objs)
    requires Tracing(h, top, objs, root, before, marks, term, pushed)
    requires 0 <= term.cell < top && !HasPointers(h[term.cell])
    ensures Tracing(h, top, objs, root, before, marks + {term.cell}, term, pushed)
  {
  }

  /** Marking the object at term and pushing its words but the first covers all its edges. */
  lemma TracingScan(h: seq<Word>, top: nat, objs: set<int>, root: int, before: set<int>,
                    marks: set<int>, term: Word, base: seq<Word>, added: seq<Word>)
    requires WellFormed(h, top, objs)
    requires Tracing(h, top, objs, root, before, marks, term, base)
    requires 0 <= term.cell < top && HasPointers(h[term.cell])
    requires forall w :: w in added <==>
                    exists c :: term.cell + 1 < c <= term.cell + h[term.cell].Size() - 1 && w == h[c]
    ensures ObjectOk(h, top, objs, term.cell)
    ensures Tracing(h, top, objs, root, before, marks + {term.cell}, h[term.cell + 1], base + added)
  {
    var index, pushed := term.cell, base + added;
    assert forall w :: w in pushed <==> w in base || w in added;
    assert ObjectOk(h, top, objs, index);
    forall a, b | a in marks + {index} && Edge(h, top, a, b)
      ensures b in marks + {index} || h[index + 1] == Addr(b) || Addr(b) in pushed
    {
      if a == index {
        var c :| a < c < a + h[a].Size() && h[c] == Addr(b);
      }
    }
    forall b | 0 <= b < top && (Addr(b) in pushed || h[index + 1] == Addr(b))
      ensures Reachable(h, top, root, b)
    {
      if Addr(b) !in base {
        assert Edge(h, top, index, b);
        ReachableStep(h, top, root, index, b);
      }
    }
  }

  /** Push the words of an object from its last one down to, but not including, its first. */
  method PushWords(mem: array<Word>, start: nat, last: nat, gcstack: ObjectsStack)
    returns (ghost pushed: seq<Word>)
    requires start <= last < mem.Length
    modifies gcstack
    ensures gcstack.items == old(gcstack.items) + pushed
    ensures forall w :: w in pushed <==> exists c :: start < c <= last && w == mem[c]
  {
    ghost var base := gcstack.items;
    pushed := [];
    var next := last;
    while next > start
      invariant start <= next <= last
      invariant gcstack.items == base + pushed
      invariant forall w :: w in pushed <==> exists c :: next < c <= last && w == mem[c]
    {
      gcstack.Push(mem[next]);
      ghost var was := pushed;
      pushed := pushed + [mem[next]];
      assert forall w :: w in pushed <==> w in was || w == mem[next];
      next := next - 1;
    }
  }

  lemma TermIsObject(h: seq<Word>, top: nat, objs: set<int>, root: int, before: set<int>,
                     marks: set<int>, term: Word, pushed: seq<Word>)
    requires WellFormed(h, top, objs) && Tracing(h, top, objs, root, before, marks, term, pushed)
    requires 0 <= term.cell < top
    ensures top <= |h| && term.cell in objs && ObjectOk(h, top, objs, term.cell)
  {
  }

  /** Mark the object at term and, unless it is a number or a string, push its words but the
      first, which becomes the next term. */
  method MarkObject(term: Word, mem: array<Word>, top: nat, gcstack: ObjectsStack, gcbits: GcBits,
                    ghost objs: set<int>, ghost root: int, ghost before: set<int>, ghost base: seq<Word>)
    returns (leaf: bool, next: Word, ghost added: seq<Word>)
    requires WellFormed(mem[..], top, objs)
    requires term.Addr? && 0 <= term.cell < top && top <= BITS_PER_WORD * gcbits.words.Length
    requires AllFit(gcbits.words[..])
    requires Tracing(mem[..], top, objs, root, before, Marks(gcbits.words[..]), term, base)
    modifies gcstack, gcbits.words
    ensures AllFit(gcbits.words[..])
    ensures Marks(gcbits.words[..]) == old(Marks(gcbits.words[..])) + {term.cell} && term.cell in objs
    ensures gcstack.items == old(gcstack.items) + added
    ensures next.Addr? && (leaf ==> next == term && added == [])
    ensures Tracing(mem[..], top, objs, root, before, Marks(gcbits.words[..]), next, base + added)
  {
    hide Tracing, AllFit, Marks, Reachable, WellFormed;
    var index := term.cell;
    ghost var h, marks := mem[..], Marks(gcbits.words[..]);
    TermIsObject(h, top, objs, root, before, marks, term, base);
    gcbits.SetBit(index);
    if mem[index].IsNumber() || mem[index].IsString() {
      TracingLeaf(h, top, objs, root, before, marks, term, base);
      leaf, next, added := true, term, [];
      assert base + added == base;
    } else {
      added := PushWords(mem, index + 1, index + mem[index].Size() - 1, gcstack);
      TracingScan(h, top, objs, root, before, marks, term, base, added);
      leaf, next := false, mem[index + 1];
    }
  }

  method GcMarkPointer(t: Word, mem: array<Word>, top: nat, gcstack: ObjectsStack, gcbits: GcBits,
                       ghost objs: set<int>)
    requires WellFormed(mem[..], top, objs) && PointerOk(t, top, objs)
    requires top <= BITS_PER_WORD * gcbits.words.Length && AllFit(gcbits.words[..])
    requires Marks(gcbits.words[..]) <= objs
    requires Closed(mem[..], top, Marks(gcbits.words[..]))
    modifies gcstack, gcbits.words
    ensures AllFit(gcbits.words[..])
    ensures gcstack.items == old(gcstack.items)
    ensures Marks(gcbits.words[..]) == old(Marks(gcbits.words[..])) + ReachableFrom(mem[..], top, t.cell)
    ensures Marks(gcbits.words[..]) <= objs
    ensures Closed(mem[..], top, Marks(gcbits.words[..]))
  {
    hide *;
    ghost var h, before, entry := mem[..], Marks(gcbits.words[..]), gcstack.items;
    ghost var marks, pushed: seq<Word> := before, [];
    var savedTop := |gcstack.items|;
    var term := t;
    TracingInit(h, top, objs, marks, t);
    while true
      invariant mem[..] == h && AllFit(gcbits.words[..]) && Marks(gcbits.words[..]) == marks
      invariant gcstack.items == entry + pushed && term.Addr?
      invariant Tracing(h, top, objs, t.cell, before, marks, term, pushed)
      decreases objs - marks, |pushed|
    {
      var next := term.cell < 0 || term.cell >= top;
      if !next { next := gcbits.IsSet(term.cell); }
      if !next {
        ghost var added;
        next, term, added := MarkObject(term, mem, top, gcstack, gcbits, objs, t.cell, before, pushed);
        marks := Marks(gcbits.words[..]);
        assert (entry + pushed) + added == entry + (pushed + added);
        pushed := pushed + added;
      }
      if next {
        if |gcstack.items| == savedTop {
          assert pushed == [];
          break;
        }
        ghost var last, rest := term, pushed[..|pushed| - 1];
        assert (entry + pushed)[..|entry + pushed| - 1] == entry + rest;
        term := gcstack.Pop();
        TracingPop(h, top, objs, t.cell, before, marks, last, pushed, term, rest);
        pushed := rest;
      }
    }
    TracingDone(h, top, objs, t.cell, before, marks, term);
  }
}
