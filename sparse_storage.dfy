/** `SparseStorage<TData>`: a dense vector of values keyed by `SlotGenerator::Slot`.

    A lazily paged redirection table has one entry per key index: an assigned
    entry names the dense position of the key's value and the generation it was
    assigned with; an unassigned entry has index `INVALID_INDEX`. Pages hold 64
    entries (`SLOTS_PER_PAGES`) and are allocated on first use; a page that was
    never allocated reads as 64 default entries. The bookkeeping is stated on
    values in module SparseTable. */
module SparseStorageModel {
  import opened Slots
  import opened FreeLists
  import opened SparseTable

  /** `SparseStorage::Iterator`: a position in the dense storage. */
  class Iterator<T> {
    var data: seq<T>
    var index: nat

    constructor (data: seq<T>, index: nat)
      ensures this.data == data && this.index == index
    {
      this.data := data;
      this.index := index;
    }

    /** `operator*`: the element at the current position. */
    function Get(): T
      reads this
      requires index < |data|
    {
      data[index]
    }

    /** `operator++`: advance by one position. */
    method Next()
      modifies this
      ensures index == old(index) + 1 && data == old(data)
    {
      index := index + 1;
    }

    /** `operator!=` / `operator==`: iterators compare by position only. */
    function SamePosition(other: Iterator<T>): (r: bool)
      reads this, other
      ensures r <==> index == other.index
    {
      index == other.index
    }
  }

  class SparseStorage<T> {
    /** m_redirection: pages of 64 entries; `null` for a page not allocated yet. */
    var redirection: seq<array?<Slot>>
    /** m_storage */
    var storage: seq<T>
    /** The key index whose entry named each dense position when it was assigned. This reverse map
        is not in the source, whose `erase` cannot redirect the entry of the value it moves. */
    var owners: seq<nat>

    /** The redirection table as one sequence, absent pages read as default entries. */
    ghost var Entries: seq<Slot>
    /** The assigned keys and their values. */
    ghost var Contents: map<Slot, T>
    ghost var Repr: set<object>

    /** Every allocated page has 64 entries. */
    predicate PagesSized()
      reads this`redirection
    {
      forall k :: 0 <= k < |redirection| && redirection[k] != null ==> redirection[k].Length == 64
    }

    ghost predicate PagesValid()
      reads this`redirection, this`Repr
    {
      && this in Repr
      && PagesSized()
      && (forall k :: 0 <= k < |redirection| && redirection[k] != null ==> redirection[k] in Repr)
      && (forall j, k :: 0 <= j < k < |redirection| && redirection[j] != null ==> redirection[j] != redirection[k])
    }

    /** Slot `j` of page `k`, or a default entry when that page is absent. */
    function PageEntry(k: nat, j: nat): Slot
      reads this`redirection, redirection
      requires PagesSized() && k < |redirection| && j < 64
    {
      if redirection[k] == null then DefaultSlot() else redirection[k][j]
    }

    /** Entry `k * 64 + j` of `e` is the page entry at page `k`, slot `j`. */
    ghost predicate PagesHold(e: seq<Slot>)
      reads this`redirection, redirection
      requires PagesSized()
    {
      && |e| == |redirection| * 64
      && forall k, j :: 0 <= k < |redirection| && 0 <= j < 64 ==> e[k * 64 + j] == PageEntry(k, j)
    }

    ghost predicate Valid()
      reads this, Repr
    {
      && PagesValid()
      && PagesHold(Entries)
      && StoreInv(Entries, storage, owners, Contents)
    }

    /** `SparseStorage()`: no pages and no values. */
    constructor ()
      ensures Valid() && fresh(Repr)
      ensures redirection == [] && storage == [] && Contents == map[]
    {
      redirection := [];
      storage := [];
      owners := [];
      Entries := [];
      Contents := map[];
      Repr := {this};
    }

    /** `has`: the key's page exists and its entry is assigned with the key's generation. */
    function Has(slot: Slot): (r: bool)
      reads this`redirection, redirection
      requires PagesSized()
      ensures r ==> slot.index < |redirection| * 64
    {
      var pageNum := slot.index / 64;
      var offset := slot.index % 64;
      && pageNum < |redirection|
      && redirection[pageNum] != null
      && redirection[pageNum][offset].index != INVALID_INDEX
      && redirection[pageNum][offset].generation == slot.generation
    }

    /** `has` reads the entry table: false past the last page, on an absent page, on an unassigned entry
        and on a generation mismatch; true otherwise. */
    lemma HasIsHolds(slot: Slot, e: seq<Slot>)
      requires PagesSized() && PagesHold(e)
      ensures slot.index >= |e| ==> !Has(slot)
      ensures slot.index / 64 < |redirection| && redirection[slot.index / 64] == null ==> e[slot.index] == DefaultSlot() && !Has(slot)
      ensures Has(slot) <==> Holds(e, slot)
      ensures Has(slot) ==> redirection[slot.index / 64][slot.index % 64] == e[slot.index]
    {
      if slot.index < |e| {
        PagePosition(slot.index, slot.index / 64, slot.index % 64);
        assert e[slot.index] == PageEntry(slot.index / 64, slot.index % 64);
      }
    }

    /** `has` is true exactly for the assigned keys. */
    lemma HasIffAssigned(slot: Slot)
      requires Valid()
      ensures Has(slot) <==> slot in Contents
    {
      HasIsHolds(slot, Entries);
    }

    /** `has` holds exactly for the assigned keys, for every key at once. */
    lemma AllHasIffAssigned()
      requires Valid()
      ensures forall t: Slot :: Has(t) <==> t in Contents
    {
      forall t: Slot
        ensures Has(t) <==> t in Contents
      {
        HasIffAssigned(t);
      }
    }

    /** A default key is never assigned while the table covers at most 2^24 - 1 indices. */
    lemma DefaultSlotAbsent()
      requires Valid() && |redirection| * 64 <= INVALID_INDEX
      ensures !Has(DefaultSlot())
    {
      HasIsHolds(DefaultSlot(), Entries);
    }

    /** `at`: the value assigned to a key the storage has. */
    function At(slot: Slot): (v: T)
      reads this, Repr
      requires Valid() && Has(slot)
      ensures slot in Contents && v == Contents[slot]
    {
      HasIffAssigned(slot);
      HasIsHolds(slot, Entries);
      storage[redirection[slot.index / 64][slot.index % 64].index]
    }

    /** `size()`: the number of stored values; every assigned key's value is among them. */
    function Size(): (n: nat)
      reads this, Repr
      requires Valid()
      ensures n == |storage| && |Contents| <= n
    {
      AssignedAtMostStored();
      |storage|
    }

    /** Distinct assigned keys name distinct dense positions, so there are no more keys than values. */
    lemma AssignedAtMostStored()
      requires Valid()
      ensures |Contents| <= |storage|
    {
      var e := Entries;
      forall s, t | s in Contents && t in Contents && e[s.index].index == e[t.index].index
        ensures s == t
      {
        assert owners[e[s.index].index] == s.index && owners[e[t.index].index] == t.index;
      }
      InjectionBound(Contents.Keys, (s: Slot) => if s.index < |e| then e[s.index].index else 0, |storage|);
    }

    /** `_prepareRedirectionMemory`: grow the table to reach the key's page, never shrinking it, and
        allocate that page with default entries if it is absent. */
    method PrepareRedirectionMemory(slot: Slot)
      requires Valid()
      modifies this`redirection, this`Repr, this`Entries
      ensures Valid() && fresh(Repr - old(Repr))
      ensures slot.index / 64 < |redirection| && redirection[slot.index / 64] != null
      ensures |redirection| == if slot.index / 64 < old(|redirection|) then old(|redirection|) else slot.index / 64 + 1
      ensures forall k :: 0 <= k < old(|redirection|) && k != slot.index / 64 ==> redirection[k] == old(redirection[k])
      ensures Entries == old(Entries) + Defaults(|Entries| - old(|Entries|))
    {
      var pageNum := slot.index / 64;
      ghost var e := Entries;
      // Deviation: the source resizes to pageNum + 1 whenever slot.m_index <= size
      // (sparse_storage.hpp:227-231), which can drop pages and skips growth past the
      // capacity; the table only ever grows to hold the key's page.
      if |redirection| < pageNum + 1 {
        GrowTable(pageNum + 1);
      }
      if redirection[pageNum] == null {
        AllocateRedirectPage(pageNum);
      }
      GrowStore(e, storage, owners, Contents, |Entries| - |e|);
    }

    /** `m_redirection.resize(count)` when it grows: the new pages are absent. */
    method GrowTable(count: nat)
      requires PagesValid() && PagesHold(Entries) && |redirection| < count
      modifies this`redirection, this`Entries
      ensures PagesValid() && PagesHold(Entries)
      ensures |redirection| == count && redirection[..old(|redirection|)] == old(redirection)
      ensures forall k :: old(|redirection|) <= k < count ==> redirection[k] == null
      ensures Entries == old(Entries) + Defaults((count - old(|redirection|)) * 64)
    {
      ghost var e := Entries;
      var n := |redirection|;
      redirection := redirection + seq(count - n, _ => null);
      Entries := e + Defaults((count - n) * 64);
      forall k, j | 0 <= k < |redirection| && 0 <= j < 64
        ensures Entries[k * 64 + j] == PageEntry(k, j)
      {
        if k < n {
          assert e[k * 64 + j] == old(PageEntry(k, j));
          assert redirection[k] == old(redirection)[k];
        } else {
          assert Entries[k * 64 + j] == Defaults((count - n) * 64)[k * 64 + j - n * 64];
        }
      }
    }

    /** `m_redirection[pageNum].m_memory = make_unique<Slot[]>(...)`: 64 default entries. */
    method AllocateRedirectPage(pageNum: nat)
      requires PagesValid() && PagesHold(Entries) && pageNum < |redirection| && redirection[pageNum] == null
      modifies this`redirection, this`Repr
      ensures PagesValid() && PagesHold(Entries) && fresh(Repr - old(Repr))
      ensures |redirection| == old(|redirection|) && redirection[pageNum] != null
      ensures forall k :: 0 <= k < |redirection| && k != pageNum ==> redirection[k] == old(redirection[k])
    {
      var page := new Slot[64](_ => DefaultSlot());
      redirection := redirection[pageNum := page];
      Repr := Repr + {page};
      forall k, j | 0 <= k < |redirection| && 0 <= j < 64
        ensures Entries[k * 64 + j] == PageEntry(k, j)
      {
        assert Entries[k * 64 + j] == old(PageEntry(k, j));
        if k != pageNum {
          assert redirection[k] == old(redirection)[k];
        }
      }
    }

    /** The entry of index `k * 64 + j`; a default entry when page `k` is absent. */
    method LoadEntry(k: nat, j: nat, ghost e: seq<Slot>) returns (v: Slot)
      requires PagesSized() && PagesHold(e) && k < |redirection| && j < 64
      ensures v == e[k * 64 + j] && (redirection[k] == null ==> v == DefaultSlot())
    {
      v := PageEntry(k, j);
    }

    /** Overwrites slot `j` of the allocated page `k`. */
    method StoreEntry(k: nat, j: nat, v: Slot, ghost e: seq<Slot>)
      requires PagesValid() && PagesHold(e) && k < |redirection| && j < 64 && redirection[k] != null
      modifies Repr - {this}
      ensures PagesHold(e[k * 64 + j := v])
    {
      redirection[k][j] := v;
      forall k', j' | 0 <= k' < |redirection| && 0 <= j' < 64
        ensures e[k * 64 + j := v][k' * 64 + j'] == PageEntry(k', j')
      {
        if k' * 64 + j' == k * 64 + j {
          PagePosition(k * 64 + j, k', j');
        } else {
          assert e[k' * 64 + j'] == old(PageEntry(k', j'));
          if k' != k {
            assert redirection[k'] != redirection[k];
          }
        }
      }
    }

    /** All bookkeeping writes of one operation, made together. */
    method Commit(d: seq<T>, o: seq<nat>, ghost e: seq<Slot>, ghost c: map<Slot, T>)
      requires PagesValid() && PagesHold(e) && StoreInv(e, d, o, c)
      modifies this`storage, this`owners, this`Entries, this`Contents
      ensures Valid()
      ensures storage == d && owners == o && Entries == e && Contents == c
    {
      storage, owners := d, o;
      Entries, Contents := e, c;
    }

    /** `assign`: the key's entry names a new last dense position, which receives the value. */
    method Assign(slot: Slot, v: T)
      requires Valid() && !Has(slot) && |storage| < INVALID_INDEX
      modifies Repr
      ensures Valid() && fresh(Repr - old(Repr))
      ensures Has(slot) && At(slot) == v
      ensures storage == old(storage) + [v] && Entries[slot.index] == Slot(old(|storage|), slot.generation)
      ensures Contents == Reassigned(old(Contents), slot, v)
      ensures forall t: Slot :: t.index != slot.index ==> (Has(t) <==> old(Has(t)))
    {
      AllHasIffAssigned();
      PrepareRedirectionMemory(slot);
      var e, d, o := Entries, storage, owners;
      ghost var c := Contents;
      var pageNum := slot.index / 64;
      var offset := slot.index % 64;
      PagePosition(slot.index, pageNum, offset);
      AssignStore(e, d, o, c, slot, v);
      StoreEntry(pageNum, offset, Slot(|d|, slot.generation), e);
      Commit(d + [v], o + [slot.index], e[slot.index := Slot(|d|, slot.generation)], Reassigned(c, slot, v));
      AllHasIffAssigned();
    }

    /** A write through the mutable reference `at` returns: the key now holds `v`, stored at its
        dense position; no entry and no other key changes. */
    method Update(slot: Slot, v: T)
      requires Valid() && Has(slot)
      modifies this`storage, this`owners, this`Entries, this`Contents
      ensures Valid() && Has(slot) && At(slot) == v
      ensures Entries == old(Entries) && owners == old(owners) && Contents == old(Contents)[slot := v]
      ensures Entries[slot.index].index < |storage| && storage == old(storage)[Entries[slot.index].index := v]
    {
      var e, d := Entries, storage;
      ghost var c := Contents;
      HasIsHolds(slot, e);
      UpdateStore(e, d, owners, c, slot, v);
      var location := redirection[slot.index / 64][slot.index % 64].index;
      Commit(d[location := v], owners, e, c[slot := v]);
      HasIffAssigned(slot);
    }

    /** An iterator over the storage, at the position a present key's entry names, reads that key's value. */
    lemma IteratorReadsKey(it: Iterator<T>, slot: Slot)
      requires Valid() && Has(slot) && it.data == storage && it.index == Entries[slot.index].index
      ensures it.index < |it.data| && it.Get() == At(slot)
    {
      HasIffAssigned(slot);
    }

    /** `erase`: empty the key's entry, bump its generation and move the last value into the hole. */
    method Erase(slot: Slot)
      requires Valid() && Has(slot)
      modifies Repr
      ensures Valid() && Repr == old(Repr) && redirection == old(redirection)
      ensures !Has(slot) && Contents == old(Contents) - {slot}
      ensures old(Entries[slot.index].index) < old(|storage|) && storage == SwapRemove(old(storage), old(Entries[slot.index].index))
      ensures Entries[slot.index] == Slot(INVALID_INDEX, slot.generation + 1)
      ensures forall t: Slot :: t != slot ==> (Has(t) <==> old(Has(t)))
    {
      var e, d, o := Entries, storage, owners;
      ghost var c := Contents;
      AllHasIffAssigned();
      HasIsHolds(slot, e);
      EraseStore(e, d, o, c, slot);
      var location := EraseEntries(slot, o, e);
      Commit(SwapRemove(d, location), SwapRemove(o, location), ErasedEntries(e, o, slot), c - {slot});
      AllHasIffAssigned();
    }

    /** All entry writes of `erase`: the key's entry is emptied and the entry that named the last
        dense position is redirected to the vacated one. Returns the vacated position. */
    method EraseEntries(slot: Slot, o: seq<nat>, ghost e: seq<Slot>) returns (location: nat)
      requires PagesValid() && PagesHold(e) && Has(slot) && o != [] && o[|o| - 1] < |e| && |o| <= INVALID_INDEX
      modifies Repr - {this}
      ensures slot.index < |e| && location == e[slot.index].index
      ensures PagesHold(ErasedEntries(e, o, slot))
    {
      HasIsHolds(slot, e);
      location := ClearEntry(slot, e);
      // Deviation: the source moves m_storage.back() into the hole (sparse_storage.hpp:198)
      // and leaves the entry that named the back position pointing past the end; the
      // owner map finds that entry and redirects it to the hole.
      RedirectOwner(o[|o| - 1], |o| - 1, location, e[slot.index := Slot(INVALID_INDEX, slot.generation + 1)]);
    }

    /** The entry writes of `erase` for the key itself: generation bumped, index `INVALID_INDEX`.
        Returns the dense position the entry named. */
    method ClearEntry(slot: Slot, ghost e: seq<Slot>) returns (location: nat)
      requires PagesValid() && PagesHold(e) && Has(slot)
      modifies Repr - {this}
      ensures location == e[slot.index].index
      ensures PagesHold(e[slot.index := Slot(INVALID_INDEX, slot.generation + 1)])
    {
      HasIsHolds(slot, e);
      var pageNum := slot.index / 64;
      var offset := slot.index % 64;
      PagePosition(slot.index, pageNum, offset);
      var internalSlot := LoadEntry(pageNum, offset, e);
      location := internalSlot.index;
      StoreEntry(pageNum, offset, Slot(INVALID_INDEX, internalSlot.generation + 1), e);
    }

    /** The entry of `owner`, if it still names dense position `back`, is made to name `location`. */
    method RedirectOwner(owner: nat, back: nat, location: nat, ghost e: seq<Slot>)
      requires PagesValid() && PagesHold(e) && owner < |e| && back < INVALID_INDEX
      modifies Repr - {this}
      ensures PagesHold(if e[owner].index == back then e[owner := Slot(location, e[owner].generation)] else e)
    {
      var ownerPage := owner / 64;
      var ownerOffset := owner % 64;
      PagePosition(owner, ownerPage, ownerOffset);
      var ownerSlot := LoadEntry(ownerPage, ownerOffset, e);
      if ownerSlot.index == back {
        StoreEntry(ownerPage, ownerOffset, Slot(location, ownerSlot.generation), e);
      }
    }

    /** `begin()`: an iterator at dense position 0. */
    method Begin() returns (it: Iterator<T>)
      ensures fresh(it) && it.data == storage && it.index == 0
    {
      it := new Iterator(storage, 0);
    }

    /** `end()`: an iterator one past the last dense position. */
    method End() returns (it: Iterator<T>)
      ensures fresh(it) && it.data == storage && it.index == |storage|
    {
      it := new Iterator(storage, |storage|);
    }

    /** The range-for walk from `begin()` to `end()`: exactly `size()` values, in storage order. */
    method Values() returns (r: seq<T>)
      requires Valid()
      ensures r == storage && |r| == Size()
    {
      var it := Begin();
      var last := End();
      r := [];
      while !it.SamePosition(last)
        invariant it != last && it.data == storage && last.index == |storage|
        invariant it.index <= |storage| && r == storage[..it.index]
        decreases |storage| - it.index
      {
        r := r + [it.Get()];
        it.Next();
      }
    }
  }

  /** A set mapped injectively below `n` has at most `n` elements. */
  lemma {:induction false} InjectionBound<U>(a: set<U>, f: U -> nat, n: nat)
    requires forall x :: x in a ==> f(x) < n
    requires forall x, y :: x in a && y in a && f(x) == f(y) ==> x == y
    ensures |a| <= n
    decreases n
  {
    if n == 0 {
      assert a == {};
    } else {
      var below := set x | x in a && f(x) < n - 1;
      InjectionBound(below, f, n - 1);
      if x :| x in a && f(x) == n - 1 {
        assert a == below + {x};
      } else {
        assert a == below;
      }
    }
  }
}
