/** Heap words, object layouts and the mark-bit array of the garbage collector.

    A word with the bit GC_B set reads as the tag word of an object; a word with GC_B clear
    reads as an address.  Memory is one sequence of cells: cells [0, cap) are the heap area,
    cells from cap on are the words outside the heap that hold heap pointers (registers,
    saved heap tops).  An address that is not a cell of the heap area stands for everything
    else a word can point at (atoms, NULL).
 */
module HeapWords {

  datatype Kind =
    | Var | VarExtended | ObjVar
    | Short | Long | Double | Str
    | Struct | Cons | Quant | Subst | SubBlock

  datatype Word =
    | Tag(kind: Kind, n: nat, flags: int)
    | Addr(cell: int)
  {
    predicate IsNumber() { Tag? && (kind.Short? || kind.Long? || kind.Double?) }

    predicate IsString() { Tag? && kind.Str? }

    predicate IsVariableExtended() { Tag? && kind.VarExtended? }

    /** Number of words of the object that starts with this tag word. */
    function Size(): (s: nat)
      requires Tag?
      ensures s >= 1
      ensures !IsNumber() && !IsString() ==> s >= 2 || (kind.SubBlock? && n == 0)
    {
      match kind
      case Var => 2
      case VarExtended => 5
      case ObjVar => 5
      case Short => 1
      case Long => 2
      case Double => 2
      case Str => n + 1
      case Struct => n + 2
      case Cons => 3
      case Quant => 4
      case Subst => 3
      case SubBlock => 2 * n + 1
    }

    /** Offset of the last word that compaction treats as a possible pointer; 0 when none. */
    function LastSlot(): (k: nat)
      requires Tag?
      ensures k < Size()
    {
      if IsNumber() || IsString() then 0
      else if IsVariableExtended() then Size() - 2
      else Size() - 1
    }
  }

  /** The test isHeapPtr: the word is an address inside the heap area. */
  predicate HeapPtr(w: Word, cap: nat) {
    w.Addr? && 0 <= w.cell < cap
  }

  // ------------------------------------------------------------------
  // Mark bits
  // ------------------------------------------------------------------

  const BITS_PER_WORD := 32

  /** Bit j of the word x. */
  predicate BitAt(x: nat, j: nat)
    decreases j
  {
    if j == 0 then x % 2 == 1 else BitAt(x / 2, j - 1)
  }

  /** x has no bit at or above position j. */
  predicate Fits(x: nat, j: nat)
    decreases j
  {
    if j == 0 then x == 0 else Fits(x / 2, j - 1)
  }

  /** x | (1 << j) */
  function WithBit(x: nat, j: nat): nat
    decreases j
  {
    if j == 0 then (if x % 2 == 1 then x else x + 1)
    else 2 * WithBit(x / 2, j - 1) + x % 2
  }

  lemma {:induction false} WithBitSets(x: nat, j: nat, k: nat)
    ensures BitAt(WithBit(x, j), k) <==> k == j || BitAt(x, k)
    decreases j
  {
    var y := WithBit(x, j);
    if j == 0 {
      assert y / 2 == x / 2;
    } else {
      assert y / 2 == WithBit(x / 2, j - 1) && y % 2 == x % 2;
      if k > 0 {
        WithBitSets(x / 2, j - 1, k - 1);
      }
    }
  }

  lemma {:induction false} WithBitFits(x: nat, j: nat, n: nat)
    requires Fits(x, n) && j < n
    ensures Fits(WithBit(x, j), n)
    decreases n
  {
    var y := WithBit(x, j);
    if j == 0 {
      assert y / 2 == x / 2;
    } else {
      assert y / 2 == WithBit(x / 2, j - 1);
      WithBitFits(x / 2, j - 1, n - 1);
    }
  }

  lemma {:induction false} ZeroHasNoBits(j: nat)
    ensures !BitAt(0, j) && Fits(0, j)
  {
    if j > 0 { ZeroHasNoBits(j - 1); }
  }

  lemma {:induction false} NonzeroHasBit(x: nat, n: nat) returns (k: nat)
    requires Fits(x, n) && x != 0
    ensures k < n && BitAt(x, k)
    decreases n
  {
    if x % 2 == 1 { k := 0; } else { k := NonzeroHasBit(x / 2, n - 1); k := k + 1; }
  }

  /** Bit i of the whole array is set. */
  predicate Has(ws: seq<nat>, i: int) {
    0 <= i < BITS_PER_WORD * |ws| && BitAt(ws[i / BITS_PER_WORD], i % BITS_PER_WORD)
  }

  /** Every word fits in u_int. */
  predicate AllFit(ws: seq<nat>) {
    forall w :: 0 <= w < |ws| ==> Fits(ws[w], BITS_PER_WORD)
  }

  ghost function Marks(ws: seq<nat>): (s: set<int>)
    ensures forall i :: i in s <==> Has(ws, i)
  {
    set i: int | 0 <= i < BITS_PER_WORD * |ws| && Has(ws, i)
  }

  /** The bit array.  The 32-bit words are kept as numbers below 2^32. */
  class GcBits {
    const words: array<nat>

    constructor (n: nat)
      ensures words.Length == n && fresh(words)
      ensures AllFit(words[..]) && Marks(words[..]) == {}
    {
      words := new nat[n](_ => 0);
      new;
      forall j: nat ensures !BitAt(0, j) && Fits(0, j) { ZeroHasNoBits(j); }
    }

    method SetBit(i: nat)
      requires i < BITS_PER_WORD * words.Length && AllFit(words[..])
      modifies words
      ensures AllFit(words[..])
      ensures Marks(words[..]) == old(Marks(words[..])) + {i}
    {
      var w, j := i / BITS_PER_WORD, i % BITS_PER_WORD;
      forall k ensures k >= 0 ==> (BitAt(WithBit(words[w], j), k) <==> k == j || BitAt(words[w], k)) {
        if k >= 0 { WithBitSets(words[w], j, k); }
      }
      WithBitFits(words[w], j, BITS_PER_WORD);
      ghost var before := words[..];
      words[w] := WithBit(words[w], j);
      assert words[..] == before[w := words[w]];
      forall k ensures Has(words[..], k) <==> k == i || Has(before, k) {
        if 0 <= k < BITS_PER_WORD * |before| && k / BITS_PER_WORD == w {
          assert k == i <==> k % BITS_PER_WORD == j;
        }
      }
    }

    method IsSet(i: nat) returns (b: bool)
      requires i < BITS_PER_WORD * words.Length
      ensures b <==> i in Marks(words[..])
    {
      b := BitAt(words[i / BITS_PER_WORD], i % BITS_PER_WORD);
    }
  }
}
