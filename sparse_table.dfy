/** The bookkeeping of `SparseStorage<TData>`, stated on values.

    `e` is the redirection table read as one sequence of entries (a page that
    was never allocated reads as 64 default entries), `d` the dense storage and
    `o` the owner of each dense position: the key index whose entry named that
    position when it was assigned. An entry is assigned when its `index` is not
    `INVALID_INDEX`; it then names a dense position, and the key with that index
    and the entry's generation is live. */
module SparseTable {
  import opened Slots

  /** `has` on the entry table: the entry of the key's index is assigned, with the key's generation. */
  predicate Holds(e: seq<Slot>, s: Slot)
  {
    s.index < |e| && e[s.index].index != INVALID_INDEX && e[s.index].generation == s.generation
  }

  /** `k` default entries: the contents of absent or freshly allocated redirection pages. */
  function Defaults(k: nat): (r: seq<Slot>)
    ensures |r| == k && forall i :: 0 <= i < k ==> r[i] == DefaultSlot()
  {
    seq(k, _ => DefaultSlot())
  }

  /** Every owner is an index of the table, and every assigned entry names a position it owns. */
  ghost predicate Owned(e: seq<Slot>, o: seq<nat>)
  {
    && (forall p :: 0 <= p < |o| ==> o[p] < |e|)
    && (forall i :: 0 <= i < |e| && e[i].index != INVALID_INDEX ==> e[i].index < |o| && o[e[i].index] == i)
  }

  /** The live keys are exactly the keys the table holds, each with the value at its entry's position. */
  ghost predicate LiveKeys<T>(e: seq<Slot>, d: seq<T>, c: map<Slot, T>)
  {
    && (forall s {:trigger s in c} :: s in c <==> Holds(e, s))
    && (forall s {:trigger c[s]} :: s in c ==> s.index < |e| && e[s.index].index < |d| && c[s] == d[e[s.index].index])
  }

  /** The `SparseStorage` invariant: one owner per dense position, at most 2^24 - 1 of them. */
  ghost predicate StoreInv<T>(e: seq<Slot>, d: seq<T>, o: seq<nat>, c: map<Slot, T>)
  {
    |o| == |d| <= INVALID_INDEX && Owned(e, o) && LiveKeys(e, d, c)
  }

  /** The live keys after `assign(s, v)`: a key with the same index and another generation is dropped. */
  ghost function Reassigned<T>(c: map<Slot, T>, s: Slot, v: T): (r: map<Slot, T>)
    ensures s in r && r[s] == v
    ensures forall t :: t in r && t != s ==> t in c && t.index != s.index && r[t] == c[t]
    ensures forall t :: t in c && t.index != s.index ==> t in r
  {
    (map t | t in c && t.index != s.index :: c[t])[s := v]
  }

  /** The table after `erase(s)`: the key's entry is emptied with its generation bumped, and the entry
      that named the last dense position is redirected to the vacated one. */
  function ErasedEntries(e: seq<Slot>, o: seq<nat>, s: Slot): (r: seq<Slot>)
    requires s.index < |e| && o != [] && o[|o| - 1] < |e|
    ensures |r| == |e|
  {
    var e1 := e[s.index := Slot(INVALID_INDEX, e[s.index].generation + 1)];
    var q := o[|o| - 1];
    if e1[q].index == |o| - 1 then e1[q := Slot(e[s.index].index, e1[q].generation)] else e1
  }

  /** Absent pages and new default pages keep the invariant: their entries are unassigned. */
  lemma GrowStore<T>(e: seq<Slot>, d: seq<T>, o: seq<nat>, c: map<Slot, T>, k: nat)
    requires StoreInv(e, d, o, c)
    ensures StoreInv(e + Defaults(k), d, o, c)
  {
    var e' := e + Defaults(k);
    forall s | true
      ensures s in c <==> Holds(e', s)
    {
      assert s in c <==> Holds(e, s);
    }
  }

  /** `assign` keeps the invariant: the key's entry names the new last position, which it owns. */
  lemma AssignStore<T>(e: seq<Slot>, d: seq<T>, o: seq<nat>, c: map<Slot, T>, s: Slot, v: T)
    requires StoreInv(e, d, o, c) && s.index < |e| && |d| < INVALID_INDEX
    ensures StoreInv(e[s.index := Slot(|d|, s.generation)], d + [v], o + [s.index], Reassigned(c, s, v))
  {
    var e', d', o', c' := e[s.index := Slot(|d|, s.generation)], d + [v], o + [s.index], Reassigned(c, s, v);
    forall i | 0 <= i < |e'| && e'[i].index != INVALID_INDEX
      ensures e'[i].index < |o'| && o'[e'[i].index] == i
    {
      if i != s.index {
        assert e[i].index < |o|;
      }
    }
    forall t | true
      ensures t in c' <==> Holds(e', t)
    {
      assert t in c <==> Holds(e, t);
    }
    forall t | t in c'
      ensures t.index < |e'| && e'[t.index].index < |d'| && c'[t] == d'[e'[t.index].index]
    {
      if t != s {
        assert t in c;
      }
    }
  }

  /** `erase` keeps the invariant and drops exactly the erased key; every other key keeps its value. */
  lemma EraseStore<T>(e: seq<Slot>, d: seq<T>, o: seq<nat>, c: map<Slot, T>, s: Slot)
    requires StoreInv(e, d, o, c) && Holds(e, s)
    ensures d != [] && e[s.index].index < |d| && o[|d| - 1] < |e|
    ensures StoreInv(ErasedEntries(e, o, s), SwapRemove(d, e[s.index].index), SwapRemove(o, e[s.index].index), c - {s})
    ensures ErasedEntries(e, o, s)[s.index] == Slot(INVALID_INDEX, s.generation + 1)
  {
    var p, last := e[s.index].index, |d| - 1;
    var q := o[last];
    var e' := ErasedEntries(e, o, s);
    var d', o' := SwapRemove(d, p), SwapRemove(o, p);
    assert o[p] == s.index;
    EraseOwned(e, o, s);
    EraseLive(e, d, o, c, s);
    if q != s.index {
      assert e'[s.index] == Slot(INVALID_INDEX, s.generation + 1);
    } else {
      assert e[s.index].index != last || p == last;
    }
  }

  /** After `erase`, the assigned entries still name positions they own. */
  lemma EraseOwned(e: seq<Slot>, o: seq<nat>, s: Slot)
    requires Owned(e, o) && |o| <= INVALID_INDEX && Holds(e, s)
    ensures e[s.index].index < |o| && Owned(ErasedEntries(e, o, s), SwapRemove(o, e[s.index].index))
  {
    var p, last := e[s.index].index, |o| - 1;
    var q := o[last];
    var e' := ErasedEntries(e, o, s);
    var o' := SwapRemove(o, p);
    forall i | 0 <= i < |e'| && e'[i].index != INVALID_INDEX
      ensures e'[i].index < |o'| && o'[e'[i].index] == i
    {
      assert i != s.index;
      if i == q && e[q].index == last {
        assert e'[i].index == p && p != last;
      } else {
        assert e'[i] == e[i];
        assert e[i].index != p;
        assert e[i].index != last;
      }
    }
  }

  /** After `erase`, the live keys are the others, each with the value it had. */
  lemma EraseLive<T>(e: seq<Slot>, d: seq<T>, o: seq<nat>, c: map<Slot, T>, s: Slot)
    requires StoreInv(e, d, o, c) && Holds(e, s)
    ensures e[s.index].index < |d| && LiveKeys(ErasedEntries(e, o, s), SwapRemove(d, e[s.index].index), c - {s})
  {
    var p, last := e[s.index].index, |d| - 1;
    var q := o[last];
    var e' := ErasedEntries(e, o, s);
    var d', c' := SwapRemove(d, p), c - {s};
    forall t | true
      ensures t in c' <==> Holds(e', t)
    {
      assert t in c <==> Holds(e, t);
    }
    forall t | t in c'
      ensures t.index < |e'| && e'[t.index].index < |d'| && c'[t] == d'[e'[t.index].index]
    {
      assert t in c && t.index != s.index;
      if t.index == q && e[q].index == last {
        assert e'[t.index].index == p && p != last;
      } else {
        assert e'[t.index] == e[t.index];
        assert e[t.index].index != p && e[t.index].index != last;
      }
    }
  }
  /** A write through the reference `at` returns: the key's dense value is replaced, and every other
      key, whose entry names a different position, keeps its value. */
  lemma UpdateStore<T>(e: seq<Slot>, d: seq<T>, o: seq<nat>, c: map<Slot, T>, s: Slot, v: T)
    requires StoreInv(e, d, o, c) && Holds(e, s)
    ensures e[s.index].index < |d| && s in c
    ensures StoreInv(e, d[e[s.index].index := v], o, c[s := v])
  {
    var p := e[s.index].index;
    var c' := c[s := v];
    assert s in c;
    forall t | true
      ensures t in c' <==> Holds(e, t)
    {
      assert t in c <==> Holds(e, t);
    }
    forall t | t in c'
      ensures t.index < |e| && e[t.index].index < |d| && c'[t] == d[p := v][e[t.index].index]
    {
      if t != s {
        assert t in c;
        assert o[e[t.index].index] == t.index;
      }
    }
  }
}
