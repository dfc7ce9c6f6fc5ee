/** The open-addressing hash table that indexes the clauses of a dynamic predicate. */
module DynamicHashTable {
  import opened TriangularProbing

  /** Cell tag and value of an indexed argument. */
  datatype Key = Key(tag: nat, value: nat)

  /** A slot of the table.  Entries are never removed. */
  datatype Entry<V> = Empty | Entry(key: Key, chain: V)

  // ------------------------------------------------------------------
  // Specification on the sequence of slots
  // ------------------------------------------------------------------

  ghost predicate HasKey<V>(t: seq<Entry<V>>, k: Key) {
    exists p :: 0 <= p < |t| && t[p].Entry? && t[p].key == k
  }

  /** The entries of the table, whatever their slots. */
  ghost function Entries<V>(t: seq<Entry<V>>): (s: set<Entry<V>>)
    ensures forall e | e in s :: e in t && e.Entry?
    ensures forall e | e in t :: e.Entry? ==> e in s
  {
    set e | e in t && e.Entry?
  }

  function Count<V>(t: seq<Entry<V>>): (n: nat)
    ensures n <= |t|
  {
    if |t| == 0 then 0 else Count(t[..|t| - 1]) + (if t[|t| - 1].Entry? then 1 else 0)
  }

  /** The first i slots probed for k are occupied by other keys. */
  ghost predicate Passed<V>(t: seq<Entry<V>>, k: Key, i: nat)
    requires |t| > 0
  {
    forall j: nat :: j < i ==>
      t[ProbeAt(k.value, j, |t|)].Entry? && t[ProbeAt(k.value, j, |t|)].key != k
  }

  /** The entry of slot p is found by probing for its key. */
  ghost predicate Reachable<V>(t: seq<Entry<V>>, p: nat)
    requires p < |t| && t[p].Entry?
  {
    exists i: nat :: i < |t| && ProbeAt(t[p].key.value, i, |t|) == p && Passed(t, t[p].key, i)
  }

  ghost predicate Ok<V>(t: seq<Entry<V>>) {
    && IsPow2(|t|) && |t| > 0
    && (forall p, q :: 0 <= p < q < |t| && t[p].Entry? && t[q].Entry? ==> t[p].key != t[q].key)
    && (forall p :: 0 <= p < |t| && t[p].Entry? ==> Reachable(t, p))
  }

  lemma TableSize<V>(t: seq<Entry<V>>)
    requires Ok(t)
    ensures |t| > 0 && IsPow2(|t|)
  {
  }

  /** No key is in two slots. */
  lemma OneSlotAKey<V>(t: seq<Entry<V>>, p: nat, q: nat)
    requires Ok(t) && p < |t| && q < |t| && p != q && t[p].Entry? && t[q].Entry?
    ensures t[p].key != t[q].key
  {
  }

  /** An empty slot after occupied ones ends the search. */
  lemma StopAtEmpty<V>(t: seq<Entry<V>>, k: Key, i: nat)
    requires Ok(t) && i < |t| && Passed(t, k, i) && t[ProbeAt(k.value, i, |t|)].Empty?
    ensures !HasKey(t, k)
  {
    forall p | 0 <= p < |t| && t[p].Entry? ensures t[p].key != k {
      var j: nat :| j < |t| && ProbeAt(t[p].key.value, j, |t|) == p && Passed(t, t[p].key, j);
    }
  }

  /** So do as many occupied slots as the table has. */
  lemma StopAtCycle<V>(t: seq<Entry<V>>, k: Key)
    requires Ok(t) && Passed(t, k, |t|)
    ensures !HasKey(t, k) && forall p :: 0 <= p < |t| ==> t[p].Entry?
  {
    forall p | 0 <= p < |t| ensures t[p].Entry? && t[p].key != k {
      var i := EverySlotProbed(k.value, |t|, p);
    }
  }

  lemma {:induction false} CountAll<V>(t: seq<Entry<V>>)
    ensures Count(t) == |t| <==> forall p :: 0 <= p < |t| ==> t[p].Entry?
  {
    if |t| > 0 {
      var u := t[..|t| - 1];
      CountAll(u);
      assert forall p :: 0 <= p < |u| ==> u[p] == t[p];
      assert Count(t) == |t| ==> Count(u) == |u|;
      if forall p :: 0 <= p < |t| ==> t[p].Entry? {
        assert t[|t| - 1].Entry?;
      }
    }
  }

  lemma {:induction false} CountUpdate<V>(t: seq<Entry<V>>, p: nat, e: Entry<V>)
    requires p < |t| && t[p].Empty? && e.Entry?
    ensures Count(t[p := e]) == Count(t) + 1
  {
    var n := |t| - 1;
    if p == n {
      assert t[p := e][..n] == t[..n];
    } else {
      assert t[p := e][..n] == t[..n][p := e];
      CountUpdate(t[..n], p, e);
    }
  }

  lemma {:induction false} CountEmpty<V>(t: seq<Entry<V>>)
    requires forall p :: 0 <= p < |t| ==> t[p].Empty?
    ensures Count(t) == 0
  {
    if |t| > 0 { CountEmpty(t[..|t| - 1]); }
  }

  /** Putting a new key into the first empty slot probed keeps the table in order and adds
      exactly that entry. */
  lemma PlaceEntry<V>(t: seq<Entry<V>>, e: Entry<V>, i: nat)
    requires Ok(t) && e.Entry? && i < |t| && Passed(t, e.key, i)
    requires t[ProbeAt(e.key.value, i, |t|)].Empty?
    ensures var p := ProbeAt(e.key.value, i, |t|);
            Ok(t[p := e]) && Entries(t[p := e]) == Entries(t) + {e} && Count(t[p := e]) == Count(t) + 1
  {
    var p := ProbeAt(e.key.value, i, |t|);
    var u := t[p := e];
    StopAtEmpty(t, e.key, i);
    CountUpdate(t, p, e);
    forall q | 0 <= q < |u| && u[q].Entry? ensures Reachable(u, q) {
      if q == p {
        assert Passed(u, e.key, i) by {
          forall j: nat | j < i ensures ProbeAt(e.key.value, j, |t|) != p { ProbesDiffer(e.key.value, j, i, |t|); }
        }
      } else {
        StillReachable(t, p, e, q);
      }
    }
    forall x | x in Entries(t) + {e} ensures x in Entries(u) {
      if x == e { assert u[p] == e; } else { var q :| 0 <= q < |t| && t[q] == x; assert u[q] == x; }
    }
  }

  lemma StillReachable<V>(t: seq<Entry<V>>, p: nat, e: Entry<V>, q: nat)
    requires |t| > 0 && p < |t| && t[p].Empty? && q < |t| && t[q].Entry? && Reachable(t, q) && q != p
    ensures Reachable(t[p := e], q)
  {
    var i: nat :| i < |t| && ProbeAt(t[q].key.value, i, |t|) == q && Passed(t, t[q].key, i);
    var u := t[p := e];
    assert u[q] == t[q] && |u| == |t| && t[ProbeAt(t[q].key.value, i, |t|)].Entry?;
    forall j: nat | j < i
      ensures u[ProbeAt(t[q].key.value, j, |t|)].Entry? && u[ProbeAt(t[q].key.value, j, |t|)].key != t[q].key
    {
      assert t[ProbeAt(t[q].key.value, j, |t|)].Entry?;
    }
    assert Passed(u, t[q].key, i);
  }

  lemma {:induction false} PrefixCount<V>(t: seq<Entry<V>>, j: nat)
    requires j <= |t|
    ensures Count(t[..j]) <= Count(t)
    decreases |t|
  {
    if j == |t| {
      assert t[..j] == t;
    } else {
      var u := t[..|t| - 1];
      assert u[..j] == t[..j];
      PrefixCount(u, j);
    }
  }

  lemma FreshTable<V>(t: seq<Entry<V>>)
    requires IsPow2(|t|) && |t| > 0 && forall p :: 0 <= p < |t| ==> t[p].Empty?
    ensures Ok(t) && Count(t) == 0 && Entries(t) == {}
  {
    CountEmpty(t);
  }

  /** One more slot of the old table has been looked at. */
  lemma PrefixStep<V>(t: seq<Entry<V>>, j: nat)
    requires j < |t|
    ensures Count(t[..j + 1]) == Count(t[..j]) + (if t[j].Entry? then 1 else 0)
    ensures Entries(t[..j + 1]) == Entries(t[..j]) + (if t[j].Entry? then {t[j]} else {})
    ensures Count(t[..j + 1]) <= Count(t)
  {
    assert t[..j + 1][..j] == t[..j];
    assert Count(t[..j + 1]) == Count(t[..j]) + if t[j].Entry? then 1 else 0;
    hide Count;
    PrefixCount(t, j + 1);
    PrefixEntries(t, j);
  }

  lemma PrefixEntries<V>(t: seq<Entry<V>>, j: nat)
    requires j < |t|
    ensures Entries(t[..j + 1]) == Entries(t[..j]) + (if t[j].Entry? then {t[j]} else {})
  {
    assert t[..j + 1] == t[..j] + [t[j]];
  }

  lemma KeyNotYet<V>(t: seq<Entry<V>>, j: nat, u: seq<Entry<V>>)
    requires Ok(t) && j < |t| && t[j].Entry? && Entries(u) == Entries(t[..j])
    ensures !HasKey(u, t[j].key)
  {
    forall p | 0 <= p < |u| && u[p].Entry? ensures u[p].key != t[j].key {
      assert u[p] in Entries(u);
      var q :| 0 <= q < j && t[q] == u[p];
    }
  }

  // ------------------------------------------------------------------
  // Table sizes
  // ------------------------------------------------------------------

  lemma {:induction false} Pow2Between(a: nat, b: nat)
    requires IsPow2(a) && IsPow2(b) && a <= b < 2 * a
    ensures a == b
    decreases a
  {
    if a > 1 { Pow2Between(a / 2, b / 2); }
  }

  /** n is what halving has left of n0 - 1 when doubling has brought 2 up to power. */
  ghost predicate Halving(n0: nat, n: nat, power: nat) {
    && n0 >= 1 && IsPow2(power) && power >= 2
    && (n + 1) * power >= 2 * n0 && n * power <= 2 * (n0 - 1)
    && (n == 0 ==> if n0 == 1 then power == 2 else power < 4 * n0)
  }

  lemma HalvingStep(n0: nat, n: nat, power: nat)
    requires Halving(n0, n, power) && n > 0
    ensures Halving(n0, n / 2, power * 2)
  {
    var h := n / 2;
    assert h * (power * 2) == (2 * h) * power;
    assert (h + 1) * (power * 2) == (2 * h + 2) * power;
    Product(2 * h, n, power);
    Product(n + 1, 2 * h + 2, power);
    Product(1, n, power);
  }

  lemma Product(a: nat, b: nat, c: nat)
    requires a <= b
    ensures a * c <= b * c
  {
  }

  lemma HalvingEnds(n0: nat)
    requires n0 >= 1
    ensures Halving(n0, n0 - 1, 2)
    ensures forall power: nat :: Halving(n0, 0, power) ==>
              n0 >= 1 && IsPow2(power) && 2 * n0 <= power && if n0 == 1 then power == 2 else power < 4 * n0
  {
  }

  /** next_2power: a power of two at least twice n; for a power of two exactly twice n. */
  method NextTwoPower(n0: nat) returns (power: nat)
    requires n0 >= 1
    ensures IsPow2(power) && 2 * n0 <= power && (if n0 == 1 then power == 2 else power < 4 * n0)
    ensures IsPow2(n0) ==> power == 2 * n0
  {
    hide *;
    HalvingEnds(n0);
    var n: nat := n0 - 1;
    power := 2;
    while n > 0
      invariant Halving(n0, n, power)
    {
      HalvingStep(n0, n, power);
      n := n / 2;
      power := power * 2;
    }
    if IsPow2(n0) { TwicePow2(n0, power); }
  }

  lemma TwicePow2(n: nat, power: nat)
    requires n >= 1 && IsPow2(n) && IsPow2(power) && 2 * n <= power
    requires if n == 1 then power == 2 else power < 4 * n
    ensures power == 2 * n
  {
    if n > 1 { Pow2Between(2 * n, power); }
  }

  // ------------------------------------------------------------------
  // The table
  // ------------------------------------------------------------------

  /** From slot n on, r is the first occupied slot, or -1 if there is none; the iterator moves
      past it. */
  ghost predicate NextEntry<V>(t: seq<Entry<V>>, n: nat, r: int, iterPos: nat) {
    && n <= |t| && iterPos <= |t|
    && (r == -1 ==> iterPos == |t| && forall p :: n <= p < |t| ==> t[p].Empty?)
    && (r != -1 ==> n <= r < |t| && iterPos == r + 1 && t[r].Entry? && forall p :: n <= p < r ==> t[p].Empty?)
  }

  datatype InsertResult = Found | Added | Aborted

  class HashTable<V> {
    var table: array<Entry<V>>
    var used: nat
    var iterPos: nat

    ghost predicate Valid()
      reads this`table, this`used, table
    {
      Ok(table[..]) && used == Count(table[..]) && 2 * used <= table.Length + 2 && table.Length >= 2
    }

    ghost function Contents(): set<Entry<V>>
      reads this`table, table
    {
      Entries(table[..])
    }

    constructor (tabSize: nat)
      requires tabSize >= 1
      ensures Valid() && Contents() == {} && used == 0 && fresh(table)
      ensures tabSize >= 2 ==> table.Length >= 4
      ensures tabSize == 1 ==> table.Length == 2
    {
      var tableSize := NextTwoPower(tabSize);
      table := new Entry<V>[tableSize](_ => Empty);
      used, iterPos := 0, 0;
      new;
      CountEmpty(table[..]);
    }

    /** The slot of the entry with key k, or -1. */
    method Search(k: Key) returns (r: int)
      requires Valid()
      ensures r == -1 <==> !HasKey(table[..], k)
      ensures r != -1 ==> 0 <= r < table.Length && table[r].Entry? && table[r].key == k
    {
      hide Ok, Count, IsPow2, ProbeAt;
      ghost var t := table[..];
      TableSize(t);
      ProbeStart(k.value, table.Length);
      var hashValue, increment := k.value % table.Length, 1;
      while table[hashValue].Entry?
        invariant 1 <= increment <= table.Length && hashValue == ProbeAt(k.value, increment - 1, table.Length)
        invariant Passed(t, k, increment - 1)
        decreases table.Length - increment
      {
        if table[hashValue].key == k {
          return hashValue;
        } else if increment == table.Length {
          StopAtCycle(t, k);
          return -1;
        }
        ProbeNext(k.value, increment, table.Length);
        hashValue := (hashValue + increment) % table.Length;
        increment := increment + 1;
      }
      StopAtEmpty(t, k, increment - 1);
      return -1;
    }

    method IterReset()
      modifies this`iterPos
      ensures iterPos == 0
    {
      iterPos := 0;
    }

    method IterNext() returns (r: int)
      requires iterPos <= table.Length
      modifies this`iterPos
      ensures NextEntry(table[..], old(iterPos), r, iterPos)
    {
      while iterPos < table.Length
        invariant old(iterPos) <= iterPos <= table.Length
        invariant forall p :: old(iterPos) <= p < iterPos ==> table[p].Empty?
      {
        if table[iterPos].Entry? {
          iterPos := iterPos + 1;
          return iterPos - 1;
        }
        iterPos := iterPos + 1;
      }
      return -1;
    }

    /** Probe for the entry with key k or for the first empty slot; stopped when the table has
        been cycled through. */
    method FindSlot(k: Key) returns (hashValue: nat, stopped: bool)
      requires Valid()
      ensures hashValue < table.Length
      ensures stopped ==> !HasKey(table[..], k) && forall p :: 0 <= p < table.Length ==> table[p].Entry?
      ensures !stopped && table[hashValue].Entry? ==> table[hashValue].key == k
      ensures !stopped && table[hashValue].Empty? ==>
                exists i: nat :: i < table.Length && hashValue == ProbeAt(k.value, i, table.Length) && Passed(table[..], k, i)
    {
      hide Ok, Count, IsPow2, ProbeAt;
      ghost var t := table[..];
      TableSize(t);
      ProbeStart(k.value, table.Length);
      hashValue := k.value % table.Length;
      var increment := 1;
      while table[hashValue].Entry?
        invariant 1 <= increment <= table.Length && hashValue == ProbeAt(k.value, increment - 1, table.Length)
        invariant Passed(t, k, increment - 1)
        decreases table.Length - increment
      {
        if table[hashValue].key == k {
          return hashValue, false;
        } else if increment == table.Length {
          StopAtCycle(t, k);
          return hashValue, true;
        }
        ProbeNext(k.value, increment, table.Length);
        hashValue := (hashValue + increment) % table.Length;
        increment := increment + 1;
      }
      stopped := false;
      ghost var i: nat := increment - 1;
      assert hashValue == ProbeAt(k.value, i, table.Length) && Passed(table[..], k, i);
    }

    /** insert.  Aborted stands for the program giving up: that happens exactly when the key is
        absent and every slot is taken, and only a table of two slots is ever that full. */
    method Insert(item: Entry<V>) returns (r: InsertResult, hashValue: nat)
      requires Valid() && item.Entry?
      modifies this, table
      ensures Valid() && (table == old(table) || fresh(table)) && iterPos == old(iterPos)
      ensures r == Found <==> old(HasKey(table[..], item.key))
      ensures r == Aborted <==>
                old(!HasKey(table[..], item.key) && forall p :: 0 <= p < table.Length ==> table[p].Entry?)
      ensures r == Aborted ==> table.Length == 2
      ensures r != Added ==> table == old(table) && table[..] == old(table[..]) && used == old(used)
      ensures r == Added ==> Contents() == old(Contents()) + {item} && used == old(used) + 1
      ensures r != Aborted ==> hashValue < table.Length && table[hashValue].Entry? && table[hashValue].key == item.key
      ensures r == Added ==> table[hashValue] == item
      ensures table.Length >= old(table.Length)
      ensures 2 * old(used) <= old(table.Length) ==> table == old(table)
      decreases if 2 * used > table.Length then 2 else 0
    {
      hide Ok, Passed;
      TableSize(table[..]);
      var stopped;
      hashValue, stopped := FindSlot(item.key);
      if stopped {
        CountAll(table[..]);
        return Aborted, hashValue;
      }
      if table[hashValue].Entry? {
        return Found, hashValue;
      }
      ghost var i: nat :| i < table.Length && hashValue == ProbeAt(item.key.value, i, table.Length) && Passed(table[..], item.key, i);
      StopAtEmpty(table[..], item.key, i);
      assert table[hashValue].Empty?;
      if 2 * used > table.Length {
        Resize();
        r, hashValue := Insert(item);
      } else {
        ghost var t := table[..];
        PlaceEntry(t, item, i);
        used := used + 1;
        table[hashValue] := item;
        assert table[..] == t[hashValue := item];
        r := Added;
      }
    }

    /** resize to next_2power(tableSize): the same entries in a table twice as large. */
    method Resize()
      requires Valid() && 2 * used > table.Length
      modifies this, table
      ensures Valid() && fresh(table) && iterPos == old(iterPos)
      ensures Contents() == old(Contents()) && used == old(used)
      ensures table.Length == 2 * old(table.Length) && 2 * used <= table.Length
      decreases 1
    {
      hide Ok, HasKey;
      ghost var t := table[..];
      TableSize(t);
      var oldtable := table;
      var newsize := NextTwoPower(table.Length);
      table := new Entry<V>[newsize](_ => Empty);
      used := 0;
      FreshTable(table[..]);
      var j := 0;
      while j < oldtable.Length
        invariant 0 <= j <= oldtable.Length && oldtable[..] == t && oldtable == old(table)
        invariant fresh(table) && table.Length == newsize && iterPos == old(iterPos)
        invariant Valid() && Contents() == Entries(t[..j]) && used == Count(t[..j])
      {
        PrefixStep(t, j);
        if oldtable[j].Entry? {
          KeyNotYet(t, j, table[..]);
          var r, dummy := Insert(oldtable[j]);
        }
        j := j + 1;
      }
      assert t[..j] == t;
    }
  }

  lemma KeyOfEntries<V>(t: seq<Entry<V>>, s: set<Entry<V>>, k: Key)
    requires Entries(t) == s
    ensures HasKey(t, k) <==> exists e | e in s :: e.key == k
  {
    if HasKey(t, k) {
      var p :| 0 <= p < |t| && t[p].Entry? && t[p].key == k;
      assert t[p] in s;
    }
  }

  /** A new key goes into a table that is not full. */
  method InsertNew<V>(h: HashTable<V>, item: Entry<V>, ghost s: set<Entry<V>>) returns (r: InsertResult)
    requires h.Valid() && h.Contents() == s && item.Entry? && forall e | e in s :: e.key != item.key
    modifies h, h.table
    ensures h.Valid() && (h.table == old(h.table) || fresh(h.table))
    ensures r == Aborted <==> old(h.used == h.table.Length)
    ensures r != Aborted ==> r == Added && h.Contents() == s + {item} && h.used == old(h.used) + 1
    ensures 2 * old(h.used) <= old(h.table.Length) ==> h.table == old(h.table)
  {
    KeyOfEntries(h.table[..], s, item.key);
    CountAll(h.table[..]);
    var slot;
    r, slot := h.Insert(item);
  }

  /** A table made for one entry has two slots: it takes two keys without growing, and a third
      makes insert give up. */
  method TwoSlotsGiveUp<V>(x: Entry<V>, y: Entry<V>, z: Entry<V>) returns (r: InsertResult)
    requires x.Entry? && y.Entry? && z.Entry? && x.key != y.key && x.key != z.key && y.key != z.key
    ensures r == Aborted
  {
    var h := new HashTable<V>(1);
    r := InsertNew(h, x, {});
    r := InsertNew(h, y, {x});
    r := InsertNew(h, z, {x, y});
  }
}
