/** The bookkeeping of `SlotGenerator`, stated on values.

    `e` is the concatenation of all slot pages (the entry of index `i` is
    `e[i]`), `h` the head and `f` the free indices in free-list order; the
    capacity is `|e|`. The links of the free list run through the `index`
    fields of the free entries, as in `SlotMap`; the entry of an acquired
    index keeps only its generation. `issued` is every handle `acquire` has
    returned. */
module SlotGeneratorTable {
  import opened Slots
  import opened FreeLists

  /** `isValid` on values: the index is in the table and the generations agree. */
  predicate Current(e: seq<Slot>, s: Slot)
  {
    s.index < |e| && e[s.index].generation == s.generation
  }

  /** A handle once issued is never newer than its index's entry, and while they agree the index is acquired. */
  ghost predicate IssuedStale(e: seq<Slot>, f: seq<nat>, issued: set<Slot>)
  {
    forall s {:trigger s in issued} :: s in issued ==>
      s.index < |e| && s.generation <= e[s.index].generation &&
      (s.generation == e[s.index].generation ==> s.index !in f)
  }

  /** The whole `SlotGenerator` invariant on values. */
  ghost predicate GenInv(e: seq<Slot>, h: nat, f: seq<nat>, issued: set<Slot>)
  {
    && h == HeadOf(f, |e|)
    && Distinct(f)
    && (forall k :: 0 <= k < |f| ==> f[k] < |e|)
    && FreeLinks(e, f, |e|)
    && IssuedStale(e, f, issued)
  }

  /** `_allocatePage` on values: the fresh indices join the end of the free list; the head is unchanged. */
  lemma GrowGen(e: seq<Slot>, h: nat, f: seq<nat>, issued: set<Slot>)
    requires GenInv(e, h, f, issued)
    ensures GenInv(e + FreshEntries(|e|), h, f + Range(|e|, |e| + 64), issued)
  {
    GrowDistinct(f, |e|);
    GrowLinks(e, f);
    GrowIssued(e, f, issued);
  }

  /** Appending the fresh indices to free indices below `cap` keeps them distinct. */
  lemma GrowDistinct(f: seq<nat>, cap: nat)
    requires Distinct(f) && forall k :: 0 <= k < |f| ==> f[k] < cap
    ensures Distinct(f + Range(cap, cap + 64))
  {
    var f' := f + Range(cap, cap + 64);
    forall j, k | 0 <= j < k < |f'| ensures f'[j] != f'[k] {
      if k < |f| {
        assert f'[j] == f[j] && f'[k] == f[k];
      } else if j < |f| {
        assert f'[j] == f[j] < cap <= f'[k];
      }
    }
  }

  /** The fresh entries continue the free list where its last link, `cap`, pointed. */
  lemma GrowLinks(e: seq<Slot>, f: seq<nat>)
    requires FreeLinks(e, f, |e|) && forall k :: 0 <= k < |f| ==> f[k] < |e|
    ensures FreeLinks(e + FreshEntries(|e|), f + Range(|e|, |e| + 64), |e| + 64)
  {
    var cap := |e|;
    var e', f' := e + FreshEntries(cap), f + Range(cap, cap + 64);
    forall k | 0 <= k < |f'| && f'[k] < |e'|
      ensures e'[f'[k]].index == NextIn(f', k, cap + 64)
    {
      if k < |f| {
        assert f'[k] == f[k] && e'[f[k]] == e[f[k]];
        assert e[f[k]].index == NextIn(f, k, cap);
      } else {
        assert f'[k] == cap + k - |f|;
      }
    }
  }

  /** No issued handle names a fresh index, so every one keeps its entry. */
  lemma GrowIssued(e: seq<Slot>, f: seq<nat>, issued: set<Slot>)
    requires IssuedStale(e, f, issued)
    ensures IssuedStale(e + FreshEntries(|e|), f + Range(|e|, |e| + 64), issued)
  {
    var cap := |e|;
    var e', f' := e + FreshEntries(cap), f + Range(cap, cap + 64);
    forall s | s in issued
      ensures s.index < |e'| && s.generation <= e'[s.index].generation &&
              (s.generation == e'[s.index].generation ==> s.index !in f')
    {
      assert e'[s.index] == e[s.index];
      if s.generation == e[s.index].generation {
        assert s.index !in f;
        assert forall k :: |f| <= k < |f'| ==> f'[k] >= cap;
      }
    }
  }

  /** `acquire` on values, once a free index exists: the head's current handle is new, and the head's link is the new head. */
  lemma AcquireGen(e: seq<Slot>, h: nat, f: seq<nat>, issued: set<Slot>)
    requires GenInv(e, h, f, issued) && h < |e|
    ensures f != [] && h == f[0]
    ensures Slot(h, e[h].generation) !in issued
    ensures GenInv(e, e[h].index, f[1..], issued + {Slot(h, e[h].generation)})
  {
    var s := Slot(h, e[h].generation);
    assert e[h].index == NextIn(f, 0, |e|);
    forall k | 0 <= k < |f| - 1
      ensures e[f[1..][k]].index == NextIn(f[1..], k, |e|)
    {
      assert e[f[k + 1]].index == NextIn(f, k + 1, |e|);
    }
    forall t | t in issued + {s}
      ensures t.index < |e| && t.generation <= e[t.index].generation &&
              (t.generation == e[t.index].generation ==> t.index !in f[1..])
    {
      if t != s {
        if t.index == h {
          assert h in f;
        } else if t.generation == e[t.index].generation {
          assert t.index !in f;
        }
      } else {
        forall k | 0 <= k < |f| - 1 ensures f[1..][k] != h {
          assert f[k + 1] != f[0];
        }
      }
    }
  }

  /** `release` on values, with the freed entry linked to the old head: the index heads the free list and every handle for it is stale. */
  lemma ReleaseGen(e: seq<Slot>, h: nat, f: seq<nat>, issued: set<Slot>, s: Slot)
    requires GenInv(e, h, f, issued) && s in issued && Current(e, s)
    ensures s.index !in f
    ensures GenInv(e[s.index := Slot(h, s.generation + 1)], s.index, [s.index] + f, issued)
  {
    var i := s.index;
    var e', f' := e[i := Slot(h, s.generation + 1)], [i] + f;
    assert i !in f;
    forall j, k | 0 <= j < k < |f'| ensures f'[j] != f'[k] {
      if j == 0 {
        assert f'[k] == f[k - 1] && f[k - 1] in f;
      } else {
        assert f'[j] == f[j - 1] && f'[k] == f[k - 1];
      }
    }
    forall k | 0 <= k < |f'| && f'[k] < |e'|
      ensures e'[f'[k]].index == NextIn(f', k, |e'|)
    {
      if k > 0 {
        assert f'[k] == f[k - 1] && f[k - 1] in f && e'[f[k - 1]] == e[f[k - 1]];
        assert e[f[k - 1]].index == NextIn(f, k - 1, |e|);
      }
    }
    forall t | t in issued
      ensures t.index < |e'| && t.generation <= e'[t.index].generation &&
              (t.generation == e'[t.index].generation ==> t.index !in f')
    {
      if t.index != i {
        assert e'[t.index] == e[t.index];
        if t.generation == e[t.index].generation {
          assert t.index !in f;
        }
      }
    }
  }

  /** Releasing `s` invalidates no other issued handle and validates none: only `s` loses validity. */
  lemma ReleaseKeepsOthers(e: seq<Slot>, h: nat, f: seq<nat>, issued: set<Slot>, s: Slot, t: Slot)
    requires GenInv(e, h, f, issued) && s in issued && Current(e, s) && t in issued && t != s
    ensures Current(e[s.index := Slot(h, s.generation + 1)], t) <==> Current(e, t)
  {
    if t.index == s.index {
      assert t.generation <= e[s.index].generation == s.generation;
    }
  }

  /** The acquire right after `release(s)` takes index `s.index` again, with the next generation,
      and makes the head the one `release` found. */
  lemma AcquireAfterRelease(e: seq<Slot>, h: nat, f: seq<nat>, issued: set<Slot>, s: Slot)
    requires GenInv(e, h, f, issued) && s in issued && Current(e, s)
    ensures var e' := e[s.index := Slot(h, s.generation + 1)];
      GenInv(e', s.index, [s.index] + f, issued) && s.index < |e'| &&
      Slot(s.index, e'[s.index].generation) == Slot(s.index, s.generation + 1) && e'[s.index].index == h
  {
    ReleaseGen(e, h, f, issued, s);
  }

  /** A table untouched by `release`: every entry is as `_allocatePage` wrote it. */
  ghost predicate Untouched(e: seq<Slot>)
  {
    forall k :: 0 <= k < |e| ==> e[k] == Slot(k + 1, 0)
  }

  /** A new page keeps a table untouched. */
  lemma GrowUntouched(e: seq<Slot>)
    requires Untouched(e)
    ensures Untouched(e + FreshEntries(|e|))
  {
  }
}

/** `SlotGenerator`: generation-checked identities drawn from a paged free list. */
module SlotGeneratorModel {
  import opened Slots
  import opened FreeLists
  import opened SlotGeneratorTable

  class SlotGenerator {
    /** m_memPages: every page holds 64 slots. */
    var pages: seq<array<Slot>>
    /** m_head: the first free index, or the capacity when none is free. */
    var head: nat

    /** The entries of all pages, page after page. */
    ghost var Entries: seq<Slot>
    /** The free indices in free-list order. */
    ghost var FreeList: seq<nat>
    /** Every handle `acquire` has returned. */
    ghost var Issued: set<Slot>
    ghost var Repr: set<object>

    /** `m_memPages.size() * SLOTS_PER_PAGES` */
    function Capacity(): (r: nat)
      reads this`pages
      ensures r % 64 == 0 && r / 64 == |pages|
    {
      |pages| * 64
    }

    /** Every page holds 64 slots. */
    predicate PagesSized()
      reads this`pages
    {
      forall k :: 0 <= k < |pages| ==> pages[k].Length == 64
    }

    ghost predicate PagesValid()
      reads this`pages, this`Repr
    {
      && this in Repr
      && PagesSized()
      && (forall k :: 0 <= k < |pages| ==> pages[k] in Repr)
      && (forall j, k :: 0 <= j < k < |pages| ==> pages[j] != pages[k])
    }

    /** Entry `k * 64 + j` of `e` is slot `j` of page `k`. */
    ghost predicate PagesHold(e: seq<Slot>)
      reads this`pages, pages
    {
      forall k, j :: 0 <= k < |pages| && 0 <= j < pages[k].Length && k * 64 + j < |e| ==> pages[k][j] == e[k * 64 + j]
    }

    ghost predicate Valid()
      reads this, Repr
    {
      && PagesValid()
      && |Entries| == Capacity()
      && PagesHold(Entries)
      && GenInv(Entries, head, FreeList, Issued)
    }

    /** `SlotGenerator()`: head 0 and one page, entry `i` linked to `i + 1`. */
    constructor ()
      ensures Valid() && fresh(Repr)
      ensures head == 0 && |pages| == 1
      ensures Entries == FreshEntries(0) && FreeList == Range(0, 64) && Issued == {}
      ensures Untouched(Entries)
    {
      pages := [];
      head := 0;
      Entries := [];
      FreeList := [];
      Issued := {};
      Repr := {this};
      new;
      AllocatePage();
    }

    /** `isValid`: the index is below the capacity and its entry's generation is the handle's. */
    function IsValid(slot: Slot): (r: bool)
      reads this`pages, pages
      requires PagesSized()
      ensures r ==> slot.index < Capacity()
    {
      slot.index < |pages| * 64 && slot.generation == pages[slot.index / 64][slot.index % 64].generation
    }

    /** Validity is the generation check on the entries. */
    lemma IsValidIsCurrent(slot: Slot)
      requires Valid()
      ensures IsValid(slot) <==> Current(Entries, slot)
    {
      if slot.index < Capacity() {
        PagePosition(slot.index, slot.index / 64, slot.index % 64);
      }
    }

    /** Validity is the generation check on the entries, for all handles at once. */
    lemma AllIsValidIsCurrent()
      requires Valid()
      ensures forall t: Slot :: IsValid(t) <==> Current(Entries, t)
    {
      forall t: Slot
        ensures IsValid(t) <==> Current(Entries, t)
      {
        IsValidIsCurrent(t);
      }
    }

    /** For a handle acquire returned, validity means its index has not been released since. */
    lemma ValidIsAcquired(slot: Slot)
      requires Valid() && slot in Issued
      ensures IsValid(slot) ==> slot.index !in FreeList
    {
      IsValidIsCurrent(slot);
    }

    /** A default handle is never valid, since at most 2^24 - 1 indices exist. */
    lemma DefaultSlotInvalid()
      requires Valid() && Capacity() <= INVALID_INDEX
      ensures !IsValid(DefaultSlot())
    {
    }

    /** `_allocatePage`: one more page, its entries linked in increasing order. */
    method AllocatePage()
      requires Valid()
      modifies this
      ensures Valid() && fresh(Repr - old(Repr))
      ensures |pages| == old(|pages|) + 1 && pages[..old(|pages|)] == old(pages)
      ensures Entries == old(Entries) + FreshEntries(old(Capacity()))
      ensures FreeList == old(FreeList) + Range(old(Capacity()), Capacity())
      ensures head == old(head) && Issued == old(Issued)
    {
      var e, h, f, i := Entries, head, FreeList, Issued;
      GrowGen(e, h, f, i);
      var lastPageInd := |pages|;
      var page := FreshPage(lastPageInd * 64);
      pages, Repr := pages + [page], Repr + {page};
      forall k, j | 0 <= k < |pages| && 0 <= j < pages[k].Length && k * 64 + j < |e| + 64
        ensures pages[k][j] == (e + FreshEntries(|e|))[k * 64 + j]
      {
        if k < lastPageInd {
          assert pages[k] == old(pages)[k];
        }
      }
      Entries, FreeList := e + FreshEntries(|e|), f + Range(|e|, |e| + 64);
    }

    /** The page `_allocatePage` adds: default slots whose links are set to `base + 1`, ..., `base + 64`. */
    static method FreshPage(base: nat) returns (page: array<Slot>)
      ensures fresh(page) && page.Length == 64 && page[..] == FreshEntries(base)
    {
      page := new Slot[64](_ => DefaultSlot());
      for i := 0 to 64
        invariant forall j :: 0 <= j < i ==> page[j] == Slot(base + j + 1, 0)
        invariant forall j :: i <= j < 64 ==> page[j] == DefaultSlot()
      {
        page[i] := page[i].(index := base + i + 1);
      }
    }

    /** The entry at slot `j` of page `k`. */
    method Load(k: nat, j: nat, ghost e: seq<Slot>) returns (v: Slot)
      requires PagesSized() && PagesHold(e) && k < |pages| && j < 64 && k * 64 + j < |e|
      ensures v == e[k * 64 + j]
    {
      v := pages[k][j];
    }

    /** Overwrites slot `j` of page `k`. */
    method StoreAt(k: nat, j: nat, v: Slot, ghost e: seq<Slot>)
      requires PagesValid() && PagesHold(e) && k < |pages| && j < 64 && k * 64 + j < |e|
      modifies Repr - {this}
      ensures PagesHold(e[k * 64 + j := v])
    {
      pages[k][j] := v;
      forall k', j' | 0 <= k' < |pages| && 0 <= j' < pages[k'].Length && k' * 64 + j' < |e|
        ensures pages[k'][j'] == e[k * 64 + j := v][k' * 64 + j']
      {
        if k' * 64 + j' == k * 64 + j {
          PagePosition(k * 64 + j, k', j');
        }
      }
    }

    /** All bookkeeping writes of one operation, made together. */
    method Commit(h: nat, ghost e: seq<Slot>, ghost f: seq<nat>, ghost issued: set<Slot>)
      requires PagesValid() && |e| == Capacity() && PagesHold(e) && GenInv(e, h, f, issued)
      modifies this`head, this`Entries, this`FreeList, this`Issued
      ensures Valid()
      ensures head == h && Entries == e && FreeList == f && Issued == issued
    {
      head := h;
      Entries, FreeList, Issued := e, f, issued;
    }

    /** `acquire`: take the head index, growing by a page first when none is free. */
    method Acquire() returns (s: Slot)
      requires Valid()
      modifies Repr
      ensures Valid() && fresh(Repr - old(Repr))
      ensures s.index == old(head) && s !in old(Issued) && Issued == old(Issued) + {s}
      ensures IsValid(s) && s.index !in FreeList
      ensures |pages| == old(|pages|) + (if old(head) == old(Capacity()) then 1 else 0)
      ensures old(head) < old(Capacity()) ==> s.generation == old(Entries[head].generation) && Entries == old(Entries)
      ensures old(head) == old(Capacity()) ==> s.generation == 0
      ensures old(head) == old(Capacity()) ==> Entries == old(Entries) + FreshEntries(old(Capacity()))
      ensures head == Entries[s.index].index
      ensures FreeList == (if old(head) < old(Capacity()) then old(FreeList)
                           else old(FreeList) + Range(old(Capacity()), Capacity()))[1..]
      ensures forall t :: t in old(Issued) ==> (IsValid(t) <==> old(IsValid(t)))
      ensures old(Untouched(Entries)) ==> Untouched(Entries) && s == Slot(old(head), 0) && head == old(head) + 1
    {
      AllIsValidIsCurrent();
      if head == |pages| * 64 {
        if Untouched(Entries) {
          GrowUntouched(Entries);
        }
        AllocatePage();
      }
      s := TakeHead();
      AllIsValidIsCurrent();
    }

    /** The part of `acquire` after any growth: the head entry is handed out and its link becomes the head. */
    method TakeHead() returns (s: Slot)
      requires Valid() && head < Capacity()
      modifies this`head, this`Entries, this`FreeList, this`Issued
      ensures Valid() && Entries == old(Entries)
      ensures s.index == old(head) && s.generation == Entries[s.index].generation && s !in old(Issued) && Issued == old(Issued) + {s}
      ensures head == Entries[s.index].index && FreeList == old(FreeList)[1..] && s.index == old(FreeList)[0]
      ensures IsValid(s)
    {
      var e, h, f, i := Entries, head, FreeList, Issued;
      AcquireGen(e, h, f, i);
      var pageNum := h / 64;
      var pageOffset := h % 64;
      PagePosition(h, pageNum, pageOffset);
      var newSlot := Load(pageNum, pageOffset, e);
      var newHead := newSlot.index;
      newSlot := newSlot.(index := pageNum * 64 + pageOffset);
      s := newSlot;
      Commit(newHead, e, f[1..], i + {s});
      IsValidIsCurrent(s);
    }

    /** `release`: bump the generation of the handle's entry and push its index on the free list.
        The freed entry is linked to the old head. */
    method Release(slot: Slot)
      requires Valid() && slot in Issued && IsValid(slot)
      modifies Repr
      ensures Valid() && Repr == old(Repr) && pages == old(pages)
      ensures Entries == old(Entries)[slot.index := Slot(old(head), slot.generation + 1)]
      ensures head == slot.index && FreeList == [slot.index] + old(FreeList) && Issued == old(Issued)
      ensures !IsValid(slot)
      ensures forall t :: t in old(Issued) && t != slot ==> (IsValid(t) <==> old(IsValid(t)))
    {
      var e, h, f, i := Entries, head, FreeList, Issued;
      AllIsValidIsCurrent();
      ReleaseGen(e, h, f, i, slot);
      var pageNum := slot.index / 64;
      var pageOffset := slot.index % 64;
      PagePosition(slot.index, pageNum, pageOffset);
      var internalSlot := Load(pageNum, pageOffset, e);
      // Deviation: the source stores the old head into the by-value parameter
      // (sparse_storage.cpp:47), leaving the freed entry's stale link in place;
      // the free list needs the entry itself to name the old head.
      StoreAt(pageNum, pageOffset, Slot(h, internalSlot.generation + 1), e);
      var newHead := slot.index;
      Commit(newHead, e[slot.index := Slot(h, slot.generation + 1)], [slot.index] + f, i);
      AllIsValidIsCurrent();
    }
  }
}
