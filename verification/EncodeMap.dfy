/** The table of the term codec: what has been sent is referred to by its place.  Places are two
    bytes, so the table has up to 256 pages of 256 entries.
 */
module EncodeMap {
  const TABLE_MAX: nat := 256

  /** All pages but the last are full; there is at least one. */
  ghost predicate PagesOk<T>(pages: seq<seq<T>>) {
    && 0 < |pages| <= TABLE_MAX && |pages[|pages| - 1]| <= TABLE_MAX
    && forall i :: 0 <= i < |pages| - 1 ==> |pages[i]| == TABLE_MAX
  }

  ghost function Flat<T>(pages: seq<seq<T>>): seq<T> {
    if pages == [] then [] else Flat(pages[..|pages| - 1]) + pages[|pages| - 1]
  }

  ghost predicate NoRepeats<T>(s: seq<T>) {
    forall i, j :: 0 <= i < j < |s| ==> s[i] != s[j]
  }

  lemma {:induction false} FlatFull<T>(pages: seq<seq<T>>)
    requires forall i :: 0 <= i < |pages| ==> |pages[i]| == TABLE_MAX
    ensures |Flat(pages)| == TABLE_MAX * |pages|
  {
    if pages != [] { FlatFull(pages[..|pages| - 1]); }
  }

  lemma FlatLength<T>(pages: seq<seq<T>>)
    requires PagesOk(pages)
    ensures |Flat(pages)| == TABLE_MAX * (|pages| - 1) + |pages[|pages| - 1]|
  {
    FlatFull(pages[..|pages| - 1]);
  }

  /** Entry j of page i has place 256 i + j. */
  lemma {:induction false} FlatAt<T>(pages: seq<seq<T>>, i: nat, j: nat)
    requires PagesOk(pages) && i < |pages| && j < |pages[i]|
    ensures TABLE_MAX * i + j < |Flat(pages)| && Flat(pages)[TABLE_MAX * i + j] == pages[i][j]
    decreases |pages|
  {
    var n := |pages| - 1;
    FlatLength(pages);
    FlatFull(pages[..n]);
    if i < n {
      FlatAt(pages[..n], i, j);
    }
  }

  /** Every place is on a page. */
  lemma FlatPage<T>(pages: seq<seq<T>>, p: nat)
    requires PagesOk(pages) && p < |Flat(pages)|
    ensures p / TABLE_MAX < |pages| && p % TABLE_MAX < |pages[p / TABLE_MAX]|
    ensures Flat(pages)[p] == pages[p / TABLE_MAX][p % TABLE_MAX]
  {
    FlatLength(pages);
    var i, j := p / TABLE_MAX, p % TABLE_MAX;
    assert p == TABLE_MAX * i + j;
    FlatAt(pages, i, j);
  }

  class Table<T(==)> {
    var pages: seq<seq<T>>

    ghost predicate Valid()
      reads this
    {
      PagesOk(pages)
    }

    ghost function Contents(): (s: seq<T>)
      reads this
    {
      Flat(pages)
    }

    constructor ()
      ensures Valid() && Contents() == []
    {
      pages := [[]];
    }

    /** add; false when there is no place left. */
    method Add(c: T) returns (ok: bool)
      requires Valid()
      modifies this
      ensures Valid() && (ok <==> |old(Contents())| < TABLE_MAX * TABLE_MAX)
      ensures Contents() == if ok then old(Contents()) + [c] else old(Contents())
    {
      FlatLength(pages);
      var n := |pages| - 1;
      if |pages[n]| < TABLE_MAX {
        ghost var before := pages;
        pages := pages[n := pages[n] + [c]];
        assert pages[..n] == before[..n];
        return true;
      }
      if |pages| == TABLE_MAX {
        return false;
      }
      ghost var before := pages;
      pages := pages + [[c]];
      assert pages[..|pages| - 1] == before;
      return true;
    }

    /** The entry at a place. */
    method LookUpPlace(i: nat, j: nat) returns (c: T)
      requires Valid() && TABLE_MAX * i + j < |Contents()| && j < TABLE_MAX
      ensures c == Contents()[TABLE_MAX * i + j]
    {
      FlatPage(pages, TABLE_MAX * i + j);
      assert (TABLE_MAX * i + j) / TABLE_MAX == i && (TABLE_MAX * i + j) % TABLE_MAX == j;
      c := pages[i][j];
    }

    /** The place of an entry, or -1: the last page is searched first. */
    method LookUp(c: T) returns (r: int)
      requires Valid()
      ensures r == -1 <==> c !in Contents()
      ensures r != -1 ==> 0 <= r < |Contents()| && Contents()[r] == c
    {
      var n := |pages| - 1;
      for i := 0 to |pages[n]|
        invariant forall k :: 0 <= k < i ==> pages[n][k] != c
      {
        if pages[n][i] == c {
          FlatAt(pages, n, i);
          return TABLE_MAX * n + i;
        }
      }
      for j := 0 to n
        invariant forall p, k :: 0 <= p < j && 0 <= k < TABLE_MAX ==> pages[p][k] != c
      {
        for i := 0 to TABLE_MAX
          invariant forall k :: 0 <= k < i ==> pages[j][k] != c
        {
          if pages[j][i] == c {
            FlatAt(pages, j, i);
            return TABLE_MAX * j + i;
          }
        }
      }
      forall p | 0 <= p < |Contents()| ensures Contents()[p] != c { FlatPage(pages, p); }
      return -1;
    }
  }
}
