/** Switch tables in the code area.  The assembler writes a table as a list; linking turns it, in
    place, into an open-addressing hash table with the same meaning.
 */
module SwitchTables {
  import opened TriangularProbing
  import opened DynamicHashTable

  /** An entry of the table: a key and the label to jump to.  The default has the empty key. */
  datatype SwitchEntry = SwitchEntry(key: Key, target: nat) {
    predicate IsEmpty() { key == EMPTY }
  }

  const EMPTY := Key(0, 0)

  /** The label of the first entry with key k, or the default. */
  function FirstLabel(es: seq<SwitchEntry>, k: Key, def: nat): nat {
    if es == [] then def else if es[0].key == k then es[0].target else FirstLabel(es[1..], k, def)
  }

  predicate Listed(es: seq<SwitchEntry>, k: Key) { exists e :: e in es && e.key == k }

  /** The table as slots. */
  function Slots(t: seq<SwitchEntry>): (s: seq<Entry<nat>>)
    ensures |s| == |t|
    ensures forall p :: 0 <= p < |t| ==> s[p] == if t[p].IsEmpty() then Empty else Entry(t[p].key, t[p].target)
  {
    seq(|t|, p requires 0 <= p < |t| => if t[p].IsEmpty() then Empty else Entry(t[p].key, t[p].target))
  }

  /** The table holds what is listed, one entry a key; its empty slots hold the default. */
  ghost predicate Holds(t: seq<SwitchEntry>, es: seq<SwitchEntry>, def: nat) {
    && Ok(Slots(t)) && Count(Slots(t)) <= |es|
    && (forall p :: 0 <= p < |t| && t[p].IsEmpty() ==> t[p].target == def)
    && (forall p :: 0 <= p < |t| && !t[p].IsEmpty() ==> Listed(es, t[p].key) && t[p].target == FirstLabel(es, t[p].key, def))
    && (forall e :: e in es ==> HasKey(Slots(t), e.key))
  }

  lemma {:induction false} NotListed(es: seq<SwitchEntry>, k: Key, def: nat)
    requires !Listed(es, k)
    ensures FirstLabel(es, k, def) == def
  {
    if es != [] {
      assert es[0] in es && forall e :: e in es[1..] ==> e in es;
      NotListed(es[1..], k, def);
    }
  }

  /** A table with room ends every search. */
  lemma {:induction false} Room(t: seq<SwitchEntry>, es: seq<SwitchEntry>, def: nat)
    requires Holds(t, es, def) && |es| < |t|
    ensures exists p :: 0 <= p < |t| && Slots(t)[p].Empty?
  {
    CountAll(Slots(t));
  }

  /** What search finds for k in slot h after i probes. */
  ghost predicate Found(s: seq<Entry<nat>>, k: Key, h: nat) {
    && |s| > 0 && h < |s|
    && (s[h].Entry? ==> s[h].key == k)
    && (s[h].Empty? ==> exists i: nat :: i < |s| && h == ProbeAt(k.value, i, |s|) && Passed(s, k, i))
  }

  /** The entry e, listed before es, is stored where search finds its key. */
  lemma {:induction false} Stored(t: seq<SwitchEntry>, es: seq<SwitchEntry>, def: nat, e: SwitchEntry, h: nat)
    requires Holds(t, es, def) && !e.IsEmpty() && |t| > 0 && Found(Slots(t), e.key, h)
    ensures h < |t| && Holds(t[h := e], [e] + es, def)
  {
    var s, t', es' := Slots(t), t[h := e], [e] + es;
    assert Slots(t') == s[h := Entry(e.key, e.target)];
    if s[h].Empty? {
      var i: nat :| i < |s| && h == ProbeAt(e.key.value, i, |s|) && Passed(s, e.key, i);
      StoredNew(t, es, def, e, h, i);
    } else {
      StoredOver(t, es, def, e, h);
    }
  }

  lemma {:induction false} StoredNew(t: seq<SwitchEntry>, es: seq<SwitchEntry>, def: nat, e: SwitchEntry, h: nat, i: nat)
    requires Holds(t, es, def) && !e.IsEmpty() && h < |t| && i < |t| && Slots(t)[h].Empty?
    requires h == ProbeAt(e.key.value, i, |t|) && Passed(Slots(t), e.key, i)
    ensures Holds(t[h := e], [e] + es, def)
  {
    hide Ok, Count, Passed, ProbeAt, Listed, FirstLabel, HasKey;
    var s, x := Slots(t), Entry(e.key, e.target);
    assert Slots(t[h := e]) == s[h := x];
    PlacedNew(s, x, h, i);
    LabelsKept(t, es, def, e, h);
    KeysKept(s, h, x);
  }

  lemma {:induction false} PlacedNew(s: seq<Entry<nat>>, x: Entry<nat>, h: nat, i: nat)
    requires Ok(s) && x.Entry? && h < |s| && i < |s| && s[h].Empty? && h == ProbeAt(x.key.value, i, |s|) && Passed(s, x.key, i)
    ensures Ok(s[h := x]) && Count(s[h := x]) == Count(s) + 1
    ensures forall p :: 0 <= p < |s| && s[p].Entry? ==> s[p].key != x.key
  {
    PlaceEntry(s, x, i);
    StopAtEmpty(s, x.key, i);
  }

  /** When no other slot has the key of e, slots keep the labels listed for their keys. */
  lemma {:induction false} LabelsKept(t: seq<SwitchEntry>, es: seq<SwitchEntry>, def: nat, e: SwitchEntry, h: nat)
    requires h < |t| && !e.IsEmpty() && forall p :: 0 <= p < |t| && p != h && !t[p].IsEmpty() ==> t[p].key != e.key
    requires forall p :: 0 <= p < |t| && !t[p].IsEmpty() ==> Listed(es, t[p].key) && t[p].target == FirstLabel(es, t[p].key, def)
    ensures var t', es' := t[h := e], [e] + es;
            forall p :: 0 <= p < |t'| && !t'[p].IsEmpty() ==> Listed(es', t'[p].key) && t'[p].target == FirstLabel(es', t'[p].key, def)
  {
    var t', es' := t[h := e], [e] + es;
    assert es'[1..] == es && e in es';
    forall p | 0 <= p < |t'| && !t'[p].IsEmpty() ensures Listed(es', t'[p].key) && t'[p].target == FirstLabel(es', t'[p].key, def) {
      if p != h { ListedMore(e, es, t[p].key); }
    }
  }

  lemma {:induction false} ListedMore(e: SwitchEntry, es: seq<SwitchEntry>, k: Key)
    requires Listed(es, k)
    ensures Listed([e] + es, k)
  {
    var f :| f in es && f.key == k;
    assert f in [e] + es;
  }

  lemma {:induction false} KeysKept(s: seq<Entry<nat>>, h: nat, x: Entry<nat>)
    requires h < |s| && x.Entry? && (s[h].Entry? ==> s[h].key == x.key)
    ensures HasKey(s[h := x], x.key) && forall k :: HasKey(s, k) ==> HasKey(s[h := x], k)
  {
    assert s[h := x][h] == x;
    forall k | HasKey(s, k) ensures HasKey(s[h := x], k) {
      var p :| 0 <= p < |s| && s[p].Entry? && s[p].key == k;
      assert s[h := x][p].Entry? && s[h := x][p].key == k;
    }
  }

  lemma {:induction false} StoredOver(t: seq<SwitchEntry>, es: seq<SwitchEntry>, def: nat, e: SwitchEntry, h: nat)
    requires Holds(t, es, def) && !e.IsEmpty() && h < |t| && Slots(t)[h].Entry? && Slots(t)[h].key == e.key
    ensures Holds(t[h := e], [e] + es, def)
  {
    hide Ok, Count, Listed, FirstLabel, HasKey;
    var s, x := Slots(t), Entry(e.key, e.target);
    assert Slots(t[h := e]) == s[h := x];
    RelabelOk(s, h, x);
    forall p | 0 <= p < |t| && p != h && !t[p].IsEmpty() ensures t[p].key != e.key { OneSlotAKey(s, p, h); }
    LabelsKept(t, es, def, e, h);
    KeysKept(s, h, x);
  }

  lemma {:induction false} RelabelOk(s: seq<Entry<nat>>, h: nat, x: Entry<nat>)
    requires Ok(s) && h < |s| && s[h].Entry? && x.Entry? && s[h].key == x.key
    ensures Ok(s[h := x]) && Count(s[h := x]) == Count(s)
  {
    RelabelCount(s, h, x);
    var u := s[h := x];
    forall p | 0 <= p < |u| && u[p].Entry? ensures Reachable(u, p) {
      assert Reachable(s, p);
      var i: nat :| i < |s| && ProbeAt(s[p].key.value, i, |s|) == p && Passed(s, s[p].key, i);
      assert Passed(u, u[p].key, i);
    }
  }

  lemma {:induction false} RelabelCount(s: seq<Entry<nat>>, h: nat, x: Entry<nat>)
    requires h < |s| && s[h].Entry? && x.Entry?
    ensures Count(s[h := x]) == Count(s)
  {
    var n := |s| - 1;
    if h == n {
      assert s[h := x][..n] == s[..n];
    } else {
      assert s[h := x][..n] == s[..n][h := x];
      RelabelCount(s[..n], h, x);
    }
  }

  lemma {:induction false} FoundMeans(t: seq<SwitchEntry>, es: seq<SwitchEntry>, def: nat, k: Key, h: nat)
    requires Holds(t, es, def) && |t| > 0 && Found(Slots(t), k, h) && k != EMPTY
    ensures h < |t| && t[h].target == FirstLabel(es, k, def)
  {
    var s := Slots(t);
    if s[h].Empty? {
      var i: nat :| i < |s| && h == ProbeAt(k.value, i, |s|) && Passed(s, k, i);
      StopAtEmpty(s, k, i);
      NotListed(es, k, def);
    }
  }

  lemma {:induction false} NothingHeld(t: seq<SwitchEntry>, def: nat)
    requires IsPow2(|t|) && |t| > 0 && forall p :: 0 <= p < |t| ==> t[p] == SwitchEntry(EMPTY, def)
    ensures Holds(t, [], def)
  {
    FreshTable(Slots(t));
  }

  /** As many probes as there are slots reach the empty one. */
  lemma {:induction false} NeverCycles(t: seq<SwitchEntry>, es: seq<SwitchEntry>, def: nat, k: Key)
    requires Holds(t, es, def) && 0 < |t| && |es| < |t|
    ensures !Passed(Slots(t), k, |t|)
  {
    Room(t, es, def);
    if Passed(Slots(t), k, |t|) { StopAtCycle(Slots(t), k); }
  }

  lemma {:induction false} SlotAt(t: seq<SwitchEntry>, k: Key, i: nat)
    requires |t| > 0 && Passed(Slots(t), k, i)
    ensures var h := ProbeAt(k.value, i, |t|);
            && (t[h].IsEmpty() || t[h].key == k ==> i < |t| ==> Found(Slots(t), k, h))
            && (!t[h].IsEmpty() && t[h].key != k ==> Passed(Slots(t), k, i + 1))
  {
  }

  /** search; it never goes round the table. */
  method Search(table: array<SwitchEntry>, k: Key, ghost es: seq<SwitchEntry>, ghost def: nat) returns (hash: nat)
    requires Holds(table[..], es, def) && |es| < table.Length && k != EMPTY
    ensures Found(Slots(table[..]), k, hash)
  {
    hide Holds, Found, Passed, ProbeAt, IsPow2, Slots;
    ghost var t := table[..];
    NeverCycles(t, es, def, k);
    PowerOfTwo(t, es, def);
    ProbeStart(k.value, table.Length);
    NonePassed(t, k);
    var increment := 1;
    hash := k.value % table.Length;
    while true
      invariant 1 <= increment <= table.Length && hash == ProbeAt(k.value, increment - 1, table.Length) < table.Length
      invariant Passed(Slots(t), k, increment - 1)
      decreases table.Length - increment
    {
      SlotAt(t, k, increment - 1);
      if table[hash].IsEmpty() || table[hash].key == k {
        return;
      }
      ProbeNext(k.value, increment, table.Length);
      hash := (hash + increment) % table.Length;
      increment := increment + 1;
    }
  }

  lemma {:induction false} NonePassed(t: seq<SwitchEntry>, k: Key)
    requires |t| > 0
    ensures Passed(Slots(t), k, 0)
  {
  }

  lemma {:induction false} PowerOfTwo(t: seq<SwitchEntry>, es: seq<SwitchEntry>, def: nat)
    requires Holds(t, es, def)
    ensures IsPow2(|t|) && |t| > 0
  {
  }

  /** lookUp: where a switch on k jumps to. */
  method LookUp(table: array<SwitchEntry>, k: Key, ghost es: seq<SwitchEntry>, ghost def: nat) returns (target: nat)
    requires Holds(table[..], es, def) && |es| < table.Length && k != EMPTY
    ensures target == FirstLabel(es, k, def)
  {
    hide Holds, Found, FirstLabel;
    var hash := Search(table, k, es, def);
    FoundMeans(table[..], es, def, k, hash);
    target := table[hash].target;
  }

  /** A table as the assembler writes it: the default, n entries, and copies of the default. */
  ghost predicate Assembled(t: seq<SwitchEntry>, n: nat) {
    && IsPow2(|t|) && n + 1 <= |t| && t[0].IsEmpty()
    && (forall p :: 1 <= p <= n ==> !t[p].IsEmpty())
    && forall p :: n < p < |t| ==> t[p] == t[0]
  }

  /** resolveCode, the first loop: the entries are taken out and the table is emptied.

      The next entry is taken out before it is known to be there.  When the table is full, that reads
      what follows it in the code (beyond) and writes past the end of the temporary table, which here
      has one slot more than the program allocates. */
  method TakeOut(table: array<SwitchEntry>, beyond: SwitchEntry, ghost n: nat)
    returns (constTable: array<SwitchEntry>, i: nat, pastEnd: bool)
    requires Assembled(table[..], n)
    modifies table
    ensures fresh(constTable) && constTable.Length == table.Length + 1 && i == n
    ensures forall p :: 0 <= p <= n ==> constTable[p] == old(table[p])
    ensures forall p :: 0 <= p < table.Length ==> table[p] == SwitchEntry(EMPTY, old(table[0].target))
    ensures pastEnd <==> n + 1 == table.Length
  {
    hide IsPow2;
    ghost var t0 := table[..];
    constTable := new SwitchEntry[table.Length + 1](_ => SwitchEntry(EMPTY, 0));
    constTable[0] := table[0];
    i := 1;
    pastEnd := i == table.Length;
    constTable[1] := if pastEnd then beyond else table[1];
    while !constTable[i].IsEmpty() && i < table.Length
      modifies table, constTable
      invariant 1 <= i <= n + 1 && (pastEnd <==> i == table.Length)
      invariant forall p :: 0 <= p <= i && p < table.Length ==> constTable[p] == t0[p]
      invariant forall p :: 0 <= p < table.Length ==> table[p] == if p < i then t0[0] else t0[p]
      decreases n + 1 - i
    {
      table[i] := constTable[0];
      i := i + 1;
      pastEnd := i == table.Length;
      constTable[i] := if pastEnd then beyond else table[i];
    }
    i := i - 1;
  }

  /** resolveCode, a switch table: the entries are taken out and hashed into the emptied table, the
      last one first, so that the first of several entries with one key is the one that counts.  The
      switch means what was listed, even if an entry past the end was looked at on the way. */
  method ResolveSwitch(table: array<SwitchEntry>, beyond: SwitchEntry, ghost n: nat) returns (pastEnd: bool)
    requires Assembled(table[..], n)
    modifies table
    ensures Holds(table[..], old(table[1..n + 1]), old(table[0].target))
    ensures pastEnd <==> n + 1 == table.Length
  {
    hide Holds, FirstLabel, Listed, IsPow2, Slots;
    ghost var def, listed := table[0].target, table[1..n + 1];
    AssembledPow2(table[..], n);
    var constTable, i;
    constTable, i, pastEnd := TakeOut(table, beyond, n);
    NothingHeld(table[..], def);
    assert listed[i..] == [];
    while i > 0
      modifies table
      invariant 0 <= i <= n && Holds(table[..], listed[i..], def)
    {
      assert constTable[i] == listed[i - 1];
      i := HashIn(table, constTable[i], i, listed, def);
    }
    assert listed[0..] == listed;
  }

  /** The empty key is the word 0 with the tag 0, and every list of other keys that leaves a slot for the default fits
      in a table. */
  lemma EveryListFits(es: seq<SwitchEntry>, def: nat, size: nat)
    requires IsPow2(size) && |es| < size && forall p :: 0 <= p < |es| ==> es[p].key != Key(0, 0)
    ensures var e := SwitchEntry(Key(0, 0), def);
            Assembled([e] + es + seq(size - 1 - |es|, _ => e), |es|)
  {
  }

  lemma AssembledPow2(t: seq<SwitchEntry>, n: nat)
    requires Assembled(t, n)
    ensures IsPow2(|t|) && |t| > 0
  {
  }

  /** One entry is hashed into the table. */
  method HashIn(table: array<SwitchEntry>, e: SwitchEntry, i: nat, ghost listed: seq<SwitchEntry>, ghost def: nat) returns (j: nat)
    requires 0 < i <= |listed| < table.Length && e == listed[i - 1] && !e.IsEmpty() && Holds(table[..], listed[i..], def)
    modifies table
    ensures j == i - 1 && Holds(table[..], listed[j..], def)
  {
    hide Holds, Found;
    var hash := Search(table, e.key, listed[i..], def);
    ghost var t := table[..];
    Stored(t, listed[i..], def, e, hash);
    assert [e] + listed[i..] == listed[i - 1..];
    table[hash] := e;
    assert table[..] == t[hash := e];
    j := i - 1;
  }
}
