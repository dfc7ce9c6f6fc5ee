/** Probing with increments 1, 2, 3, ... in a table whose size is a power of two, as in both hash
    tables of the abstract machine: the first n probes visit each of the n slots once.
 */
module TriangularProbing {

  predicate IsPow2(n: nat)
    decreases n
  {
    n == 1 || (n > 1 && n % 2 == 0 && IsPow2(n / 2))
  }

  /** The slot looked at after i increments when the hash value is h. */
  function ProbeAt(h: nat, i: nat, n: nat): (p: nat)
    requires n > 0
    ensures p < n
    decreases i
  {
    if i == 0 then h % n else (ProbeAt(h, i - 1, n) + i) % n
  }

  lemma ProbeStart(h: nat, n: nat)
    requires n > 0
    ensures ProbeAt(h, 0, n) == h % n
  {
  }

  lemma ProbeNext(h: nat, i: nat, n: nat)
    requires n > 0 && i > 0
    ensures ProbeAt(h, i, n) == (ProbeAt(h, i - 1, n) + i) % n
  {
  }

  function Triangle(i: nat): nat {
    if i == 0 then 0 else Triangle(i - 1) + i
  }

  lemma {:induction false} TwiceTriangle(i: nat)
    ensures 2 * Triangle(i) == i * (i + 1)
  {
    if i > 0 { TwiceTriangle(i - 1); }
  }

  lemma Distribute(n: int, a: int, b: int)
    ensures n * (a + b) == n * a + n * b && n * (a - b) == n * a - n * b
  {
  }

  lemma DivMod(x: int, n: int)
    requires n > 0
    ensures x % n == x - n * (x / n)
  {
  }

  lemma {:induction false} ProbeIsTriangle(h: nat, i: nat, n: nat) returns (q: int)
    requires n > 0
    ensures ProbeAt(h, i, n) == h + Triangle(i) - n * q
    decreases i
  {
    hide ProbeAt;
    ProbeStart(h, n);
    if i == 0 {
      q := h / n;
      DivMod(h, n);
    } else {
      var q' := ProbeIsTriangle(h, i - 1, n);
      var x := ProbeAt(h, i - 1, n) + i;
      ModStep(h + Triangle(i), n, q', x);
      ProbeNext(h, i, n);
      q := q' + x / n;
    }
  }

  lemma ModStep(a: int, n: int, q: int, x: int)
    requires n > 0 && x == a - n * q
    ensures x % n == a - n * (q + x / n)
  {
    var d := x / n;
    DivMod(x, n);
    Distribute(n, q, d);
  }

  lemma Parity(a: int, b: int)
    requires a % 2 == 1
    ensures (a * b) % 2 == b % 2
  {
    var s := a / 2;
    assert a == 2 * s + 1;
    assert a * b == 2 * (s * b) + b;
  }

  /** A power of two that divides a * b with a odd divides b. */
  lemma {:induction false} OddFactor(n: nat, a: int, b: int, q: int) returns (r: int)
    requires IsPow2(n) && a % 2 == 1 && a * b == n * q
    ensures b == n * r
    decreases n
  {
    if n == 1 {
      r := b;
    } else {
      var m := n / 2;
      assert n * q == 2 * (m * q);
      Parity(a, b);
      var c := b / 2;
      assert a * (2 * c) == 2 * (a * c);
      r := OddFactor(m, a, c, q);
      assert 2 * (m * r) == n * r;
    }
  }

  lemma ProductOfDifference(i: int, j: int)
    ensures (j - i) * (j + i + 1) == j * (j + 1) - i * (i + 1)
  {
  }

  lemma MultipleIsLarge(n: int, x: int, r: int)
    requires 0 < x && 0 < n && x == n * r
    ensures x >= n
  {
    if r <= 0 { NonPositive(n, r); } else { NonPositive(n, 1 - r); Distribute(n, 1, r); }
  }

  lemma NonPositive(n: int, r: int)
    requires n > 0 && r <= 0
    ensures n * r <= 0
  {
  }

  /** Two numbers below a power of two, one of them odd: their product is no multiple of it. */
  lemma NoMultiple(n: nat, d: int, s: int, q: int)
    requires IsPow2(n) && 0 < d < n && 0 < s < n && (d % 2 == 1 || s % 2 == 1)
    ensures d * s != n * q
  {
    if d * s == n * q {
      if d % 2 == 1 {
        var r := OddFactor(n, d, s, q);
        MultipleIsLarge(n, s, r);
      } else {
        assert s * d == d * s;
        var r := OddFactor(n, s, d, q);
        MultipleIsLarge(n, d, r);
      }
    }
  }

  lemma OneIsOdd(i: nat, j: nat)
    ensures (j - i) % 2 == 1 || (j + i + 1) % 2 == 1
  {
    assert j + i + 1 == (j - i) + 2 * i + 1;
  }

  lemma TwiceGap(i: nat, j: nat)
    ensures 2 * (Triangle(j) - Triangle(i)) == (j - i) * (j + i + 1)
  {
    TwiceTriangle(i);
    TwiceTriangle(j);
    ProductOfDifference(i, j);
  }

  /** The difference of two triangle numbers is half a product with one odd factor. */
  lemma TriangleGap(i: nat, j: nat) returns (d: int, s: int)
    requires i < j
    ensures 2 * (Triangle(j) - Triangle(i)) == d * s
    ensures 0 < d <= j && 0 < s <= 2 * j && (d % 2 == 1 || s % 2 == 1)
  {
    TwiceGap(i, j);
    OneIsOdd(i, j);
    d, s := j - i, j + i + 1;
  }

  /** The same for half a product of numbers below twice the power of two. */
  lemma NoHalfMultiple(n: nat, d: int, s: int, t: int, q: int)
    requires IsPow2(n) && 0 < d < 2 * n && 0 < s < 2 * n && (d % 2 == 1 || s % 2 == 1) && 2 * t == d * s
    ensures t != n * q
  {
    NoMultiple(2 * n, d, s, q);
    assert (2 * n) * q == 2 * (n * q);
  }

  /** A power of two never divides the difference of two triangle numbers below it. */
  lemma TrianglesDiffer(i: nat, j: nat, n: nat, q: int)
    requires IsPow2(n) && i < j < n
    ensures Triangle(j) - Triangle(i) != n * q
  {
    var d, s := TriangleGap(i, j);
    NoHalfMultiple(n, d, s, Triangle(j) - Triangle(i), q);
  }

  /** No two of the first n probes look at the same slot. */
  lemma ProbesDiffer(h: nat, i: nat, j: nat, n: nat)
    requires IsPow2(n) && i < j < n
    ensures ProbeAt(h, i, n) != ProbeAt(h, j, n)
  {
    var qi := ProbeIsTriangle(h, i, n);
    var qj := ProbeIsTriangle(h, j, n);
    Distribute(n, qj, qi);
    TrianglesDiffer(i, j, n, qj - qi);
  }

  ghost function Probed(h: nat, m: nat, n: nat): set<nat>
    requires n > 0
  {
    set i: nat | i < m :: ProbeAt(h, i, n)
  }

  lemma {:induction false} ProbedCount(h: nat, m: nat, n: nat)
    requires IsPow2(n) && m <= n
    ensures |Probed(h, m, n)| == m
    decreases m
  {
    if m == 0 {
      assert Probed(h, m, n) == {};
    } else {
      ProbedCount(h, m - 1, n);
      forall i | 0 <= i < m - 1 ensures ProbeAt(h, i, n) != ProbeAt(h, m - 1, n) { ProbesDiffer(h, i, m - 1, n); }
      assert Probed(h, m, n) == Probed(h, m - 1, n) + {ProbeAt(h, m - 1, n)};
    }
  }

  ghost function Below(n: nat): (s: set<nat>)
    ensures forall p: nat :: p in s <==> p < n
  {
    if n == 0 then {} else Below(n - 1) + {n - 1}
  }

  lemma {:induction false} BelowCount(n: nat)
    ensures |Below(n)| == n
  {
    if n > 0 { BelowCount(n - 1); }
  }

  lemma SubsetOfSameSize<T>(a: set<T>, b: set<T>)
    requires a <= b && |a| == |b|
    ensures a == b
  {
    assert |b - a| == |b| - |a|;
  }

  /** The first n probes reach every slot. */
  lemma EverySlotProbed(h: nat, n: nat, p: nat) returns (i: nat)
    requires IsPow2(n) && p < n
    ensures i < n && ProbeAt(h, i, n) == p
  {
    ProbedCount(h, n, n);
    BelowCount(n);
    SubsetOfSameSize(Probed(h, n, n), Below(n));
    assert p in Probed(h, n, n);
    i :| i < n && ProbeAt(h, i, n) == p;
  }
}
