/** The paged object pool `SlotMap<ObjType, NUM_OBJECTS_PER_PAGE>`.

    Values live in fixed-size pages and are kept gap-free at dense positions
    0 .. size-1. The redirect table has one entry per external index: for a
    live index its `index` field is the dense position of the value, for a
    free index it is the next free index (a singly linked free list rooted at
    `head`, ending at the capacity). The backwards mapping sends each dense
    position back to its external index. The bookkeeping itself is stated on
    values in module SlotMapTable. */
module SlotMapModel {
  import opened Slots
  import opened SlotMapTable
  import opened FreeLists

  // NUM_OBJECTS_PER_PAGE is fixed at its default, 64. It is written as the
  // literal 64 throughout, which keeps page arithmetic linear for the verifier.

  /** `SlotMap::Iterator`: a position in the dense region of a page array. */
  class Iterator<T(0)> {
    var pages: seq<array<T>>
    var index: nat

    constructor (pages: seq<array<T>>, index: nat)
      ensures this.pages == pages && this.index == index
    {
      this.pages := pages;
      this.index := index;
    }

    /** `operator*`: the element at the current dense position. */
    function Get(): T
      reads this, pages
      requires index / 64 < |pages| && index % 64 < pages[index / 64].Length
    {
      pages[index / 64][index % 64]
    }

    /** `operator++`: advance by one dense position. */
    method Next()
      modifies this
      ensures index == old(index) + 1 && pages == old(pages)
    {
      index := index + 1;
    }

    /** `operator==`: iterators compare by position only. */
    function SamePosition(other: Iterator<T>): (r: bool)
      reads this, other
      ensures r <==> index == other.index
    {
      index == other.index
    }
  }

  class SlotMap<T(0)> {
    /** m_redirect: dense position (live index) or next free index (free index), and the generation. */
    var redirect: seq<Slot>
    /** m_directPages: every page holds 64 values. */
    var pages: seq<array<T>>
    /** m_backwardsMapping: the external index whose value sits at each dense position. */
    var backwards: seq<nat>
    /** m_size */
    var size: nat
    /** m_head: the first free index, or the capacity when every index is live. */
    var head: nat

    /** The values at dense positions 0 .. size-1. */
    ghost var Dense: seq<T>
    /** The free indices in free-list order, starting at `head`. */
    ghost var FreeList: seq<nat>
    /** The live handles and the values they refer to. */
    ghost var Contents: map<Slot, T>
    /** Every handle `allocate` has returned; only these (and `Slot()`) exist. */
    ghost var Issued: set<Slot>
    ghost var Repr: set<object>

    /** `m_directPages.size() * NUM_OBJECTS_PER_PAGE` */
    function Capacity(): (r: nat)
      reads this`pages
      ensures r % 64 == 0 && r / 64 == |pages|
    {
      |pages| * 64
    }

    ghost predicate PagesValid()
      reads this`pages, this`Repr
    {
      && this in Repr
      && (forall k :: 0 <= k < |pages| ==> pages[k] in Repr && pages[k].Length == 64)
      && (forall j, k :: 0 <= j < k < |pages| ==> pages[j] != pages[k])
    }

    /** Dense position `k * 64 + j` of `d` is slot `j` of page `k`. */
    ghost predicate PagesHold(d: seq<T>)
      reads this`pages, pages
    {
      forall k, j :: 0 <= k < |pages| && 0 <= j < pages[k].Length && k * 64 + j < |d| ==> pages[k][j] == d[k * 64 + j]
    }

    /** The pages hold every prefix of what they hold. */
    lemma PagesHoldPrefix(d: seq<T>, m: nat)
      requires PagesHold(d) && m <= |d|
      ensures PagesHold(d[..m])
    {
    }

    /** The pages are distinct 64-value arrays that hold `Dense`, and the bookkeeping agrees with it. */
    ghost predicate Valid()
      reads this, Repr
    {
      && PagesValid()
      && MapInv(redirect, backwards, size, head, FreeList, Capacity(), Dense, Contents, Issued)
      && PagesHold(Dense)
    }

    /** `SlotMap()`: empty, with one page, head 0. */
    constructor ()
      ensures Valid() && fresh(Repr)
      ensures size == 0 && head == 0 && |pages| == 1
      ensures Contents == map[] && Issued == {} && Dense == []
      ensures FreeList == Range(0, 64)
    {
      redirect := [];
      pages := [];
      backwards := [];
      size := 0;
      head := 0;
      Dense := [];
      FreeList := [];
      Contents := map[];
      Issued := {};
      Repr := {this};
      new;
      PushDirectPage();
    }

    /** `size()`: the length of the dense region. */
    function Size(): (n: nat)
      reads this, Repr
      requires Valid()
      ensures n == |Dense| && n + |FreeList| == Capacity()
    {
      size
    }

    /** `isSlotValid`: the index is in the table and the generations match. */
    function IsSlotValid(slot: Slot): (r: bool)
      reads this`redirect
      ensures r ==> slot.index < |redirect|
    {
      slot.index < |redirect| && redirect[slot.index].generation == slot.generation
    }

    /** `_getPageNumber`: the page holding the value of external index `val`. */
    function PageNumber(val: nat): (r: nat)
      reads this`redirect
      requires val < |redirect|
      ensures r * 64 <= redirect[val].index < r * 64 + 64
    {
      redirect[val].index / 64
    }

    /** `_getPageOffset`: the place of that value within its page. */
    function PageOffset(val: nat): (r: nat)
      reads this`redirect
      requires val < |redirect|
      ensures r < 64 && PageNumber(val) * 64 + r == redirect[val].index
    {
      redirect[val].index % 64
    }

    /** For a handle this map issued, validity is exactly liveness. */
    lemma ValidIffLive(slot: Slot)
      requires Valid() && slot in Issued
      ensures IsSlotValid(slot) <==> slot in Contents
    {
    }

    /** Two valid issued handles with the same index are the same handle. */
    lemma NoAliasing(s: Slot, t: Slot)
      requires Valid() && s in Issued && t in Issued && IsSlotValid(s) && IsSlotValid(t)
      requires s.index == t.index
      ensures s == t
    {
    }

    /** `Slot()` is never valid while the table is within the 24-bit index range. */
    lemma DefaultSlotInvalid()
      requires Valid() && Capacity() <= INVALID_INDEX
      ensures !IsSlotValid(DefaultSlot())
    {
    }

    /** A valid handle gives a non-empty map, so `erase` never underflows `m_size`. */
    lemma ValidSlotNonEmpty(slot: Slot)
      requires Valid() && slot in Issued && IsSlotValid(slot)
      ensures size != 0
    {
      assert slot in Contents;
    }

    /** Every live value is in the dense region, at the position its redirect entry names. */
    lemma LiveValueIsDense(slot: Slot)
      requires Valid() && slot in Contents
      ensures redirect[slot.index].index < size && Dense[redirect[slot.index].index] == Contents[slot]
    {
    }

    /** Every dense position holds the value of exactly one live handle. */
    lemma DenseValueIsLive(pos: nat)
      requires Valid() && pos < size
      ensures Slot(backwards[pos], redirect[backwards[pos]].generation) in Contents
      ensures Contents[Slot(backwards[pos], redirect[backwards[pos]].generation)] == Dense[pos]
      ensures forall q :: 0 <= q < size && q != pos ==> backwards[q] != backwards[pos]
    {
      assert LiveSlot(redirect, backwards, size, Slot(backwards[pos], redirect[backwards[pos]].generation));
    }

    /** The free list is acyclic: from `head` it visits capacity-size distinct free
        indices, each below the capacity, and then reaches the capacity. */
    lemma FreeListAcyclic()
      requires Valid()
      ensures head <= Capacity()
      ensures Follow(redirect, head, Capacity() - size) == Capacity()
      ensures forall k :: 0 <= k < Capacity() - size ==> Follow(redirect, head, k) < Capacity()
      ensures forall j, k :: 0 <= j < k <= Capacity() - size ==> Follow(redirect, head, j) != Follow(redirect, head, k)
    {
      FreeChainAcyclic(redirect, backwards, size, FreeList, Capacity());
    }

    /** `_pushDirectPage`: append a page, grow the backwards mapping and refit the redirect table. */
    method PushDirectPage()
      requires Valid()
      modifies this
      ensures Valid() && fresh(Repr - old(Repr))
      ensures |pages| == old(|pages|) + 1 && pages[..old(|pages|)] == old(pages)
      ensures redirect == old(redirect) + FreshEntries(old(Capacity()))
      ensures backwards == old(backwards) + FreshBackwards()
      ensures FreeList == old(FreeList) + Range(old(Capacity()), Capacity())
      ensures size == old(size) && head == old(head)
      ensures Dense == old(Dense) && Contents == old(Contents) && Issued == old(Issued)
    {
      var r, b, n, h, cap := redirect, backwards, size, head, Capacity();
      ghost var d, f, c, i := Dense, FreeList, Contents, Issued;
      GrowMap(r, b, n, h, f, cap, d, c, i);
      AppendPage(d);
      var numPages := |pages|;
      if numPages * 64 > |redirect| {
        RefitRedirectSlots();
      } else {
        // the redirect table is one page short of the new capacity whenever the map is valid
        assert false;
      }
      Commit(r + FreshEntries(cap), b + FreshBackwards(), n, h, d, f + Range(cap, cap + 64), c, i);
    }

    /** `m_directPages.push_back(...)`: a fresh page of 64 values after the others, holding nothing yet. */
    method AppendPage(ghost d: seq<T>)
      requires PagesValid() && PagesHold(d) && |d| <= Capacity()
      modifies this`pages, this`Repr
      ensures PagesValid() && PagesHold(d)
      ensures |pages| == old(|pages|) + 1 && pages[..old(|pages|)] == old(pages)
      ensures fresh(pages[old(|pages|)]) && Repr == old(Repr) + {pages[old(|pages|)]}
    {
      var page := new T[64];
      pages, Repr := pages + [page], Repr + {page};
      forall k, j | 0 <= k < |pages| && 0 <= j < pages[k].Length && k * 64 + j < |d|
        ensures pages[k][j] == d[k * 64 + j]
      {
        assert pages[k] == old(pages)[k];
      }
    }

    /** `_refitRedirectSlots`: 64 new entries, each linked to the next index. */
    method RefitRedirectSlots()
      modifies this`redirect
      ensures redirect == old(redirect) + FreshEntries(old(|redirect|))
    {
      var prevSize := |redirect|;
      var newSize := prevSize + 64;
      // resize value-initialises the new entries with Slot()
      redirect := redirect + seq(64, _ => DefaultSlot());
      var i := prevSize + 1;
      while i <= newSize
        invariant prevSize + 1 <= i <= newSize + 1
        invariant |redirect| == newSize
        invariant redirect[..prevSize] == old(redirect)
        invariant forall j :: prevSize <= j < i - 1 ==> redirect[j] == Slot(j + 1, 0)
        invariant forall j :: i - 1 <= j < newSize ==> redirect[j] == DefaultSlot()
      {
        redirect := redirect[i - 1 := redirect[i - 1].(index := i)];
        i := i + 1;
      }
      assert redirect == redirect[..prevSize] + redirect[prevSize..];
    }

    /** The bookkeeping writes of one operation, made together once their values are known. */
    method Commit(r: seq<Slot>, b: seq<nat>, n: nat, h: nat,
                  ghost dense: seq<T>, ghost free: seq<nat>, ghost contents: map<Slot, T>, ghost issued: set<Slot>)
      requires PagesValid() && PagesHold(dense) && MapInv(r, b, n, h, free, Capacity(), dense, contents, issued)
      modifies this`redirect, this`backwards, this`size, this`head, this`Dense, this`FreeList, this`Contents, this`Issued
      ensures Valid()
      ensures redirect == r && backwards == b && size == n && head == h
      ensures Dense == dense && FreeList == free && Contents == contents && Issued == issued
    {
      redirect, backwards, size, head := r, b, n, h;
      Dense, FreeList, Contents, Issued := dense, free, contents, issued;
    }

    /** Writes `v` at dense position `p`, one past the values the pages hold. */
    method StoreNext(p: nat, v: T, ghost d: seq<T>)
      requires PagesValid() && p < Capacity() && PagesHold(d) && p == |d|
      modifies Repr - {this}
      ensures PagesHold(d + [v])
    {
      pages[p / 64][p % 64] := v;
      forall k, j | 0 <= k < |pages| && 0 <= j < pages[k].Length && k * 64 + j < |d| + 1
        ensures pages[k][j] == (d + [v])[k * 64 + j]
      {
        PagePosition(p, k, j);
      }
    }

    /** Overwrites dense position `p` with `v`. */
    method StoreAt(p: nat, v: T, ghost d: seq<T>)
      requires PagesValid() && p < Capacity() && PagesHold(d) && p < |d|
      modifies Repr - {this}
      ensures PagesHold(d[p := v])
    {
      pages[p / 64][p % 64] := v;
      forall k, j | 0 <= k < |pages| && 0 <= j < pages[k].Length && k * 64 + j < |d|
        ensures pages[k][j] == d[p := v][k * 64 + j]
      {
        PagePosition(p, k, j);
      }
    }

    /** Moves the last of the `n` values the pages hold into dense position `p`. */
    method MoveLastInto(p: nat, n: nat, ghost d: seq<T>)
      requires PagesValid() && PagesHold(d) && p < n && n == |d| <= Capacity()
      modifies Repr - {this}
      ensures PagesHold(SwapRemove(d, p))
    {
      var last := Load(n - 1, d);
      StoreAt(p, last, d);
      PagesHoldPrefix(d[p := last], n - 1);
    }

    /** The value at dense position `p`. */
    method Load(p: nat, ghost d: seq<T>) returns (v: T)
      requires PagesValid() && PagesHold(d) && p < |d| && p < Capacity()
      ensures v == d[p]
    {
      PagePosition(p, p / 64, p % 64);
      v := pages[p / 64][p % 64];
    }

    /** `allocate`: store `v` at dense position `size` under the free-list head. */
    method Allocate(v: T) returns (s: Slot)
      requires Valid()
      modifies Repr
      ensures Valid() && fresh(Repr - old(Repr))
      ensures s.index == old(head) && s !in old(Contents) && s !in old(Issued)
      ensures old(head) < old(Capacity()) ==> s.generation == old(redirect[head].generation) && pages == old(pages)
      ensures old(head) == old(Capacity()) ==> s.generation == 0 && |pages| == old(|pages|) + 1
      ensures size == old(size) + 1 && Dense == old(Dense) + [v]
      ensures Contents == old(Contents)[s := v] && Issued == old(Issued) + {s}
      ensures IsSlotValid(s) && At(s) == v
      ensures redirect[s.index].index == old(size) && backwards[old(size)] == s.index
      ensures FreeList == (if old(head) < old(Capacity()) then old(FreeList)
                           else old(FreeList) + Range(old(Capacity()), Capacity()))[1..]
      ensures head == HeadOf(FreeList, Capacity())
      ensures forall t :: t in old(Issued) ==> (IsSlotValid(t) <==> old(IsSlotValid(t)))
    {
      var capacity := |pages| * 64;
      assert head <= capacity;  // AR_CRITICAL: the head is at most one past the end
      if head == capacity {
        PushDirectPage();
      }
      var r, b, n, h := redirect, backwards, size, head;
      ghost var d, f, c, i := Dense, FreeList, Contents, Issued;
      AllocMap(r, b, n, h, f, Capacity(), d, c, i, v);
      var freeObjectIndex := n;
      StoreNext(freeObjectIndex, v, d);
      var redirectSlot := r[h];
      var newBackwards := b[n := h];
      var newRedirect := r[h := redirectSlot.(index := n)];
      s := newRedirect[h].(index := newBackwards[n]);
      Commit(newRedirect, newBackwards, n + 1, redirectSlot.index, d + [v], f[1..], c[s := v], i + {s});
    }

    /** `at`: the value of a valid handle. */
    function At(slot: Slot): (v: T)
      reads this, Repr
      requires Valid() && slot in Issued && IsSlotValid(slot)
      ensures slot in Contents && v == Contents[slot]
    {
      assert slot in Contents;
      pages[PageNumber(slot.index)][PageOffset(slot.index)]
    }

    /** A write through the mutable reference `at` returns: the handle now refers to `v`, stored at
        its dense position; no other handle and none of the bookkeeping changes. */
    method Update(slot: Slot, v: T)
      requires Valid() && slot in Issued && IsSlotValid(slot)
      modifies Repr
      ensures Valid() && Repr == old(Repr) && pages == old(pages)
      ensures redirect == old(redirect) && backwards == old(backwards) && size == old(size) && head == old(head)
      ensures FreeList == old(FreeList) && Issued == old(Issued)
      ensures Contents == old(Contents)[slot := v] && At(slot) == v
      ensures old(redirect[slot.index].index) < old(|Dense|) && Dense == old(Dense)[old(redirect[slot.index].index) := v]
    {
      var r, b, n, h := redirect, backwards, size, head;
      ghost var d, f, c := Dense, FreeList, Contents;
      assert slot in c;
      UpdateMap(r, b, n, h, f, Capacity(), d, c, Issued, slot, v);
      var p := r[slot.index].index;
      StoreAt(p, v, d);
      Commit(r, b, n, h, d[p := v], f, c[slot := v], Issued);
    }

    /** `operator*` of an iterator over this map's pages reads the dense value at its position. */
    lemma IteratorReads(it: Iterator<T>)
      requires Valid() && it.pages == pages && it.index < size
      ensures it.index / 64 < |it.pages| && it.index % 64 < it.pages[it.index / 64].Length
      ensures it.Get() == Dense[it.index]
    {
      PagePosition(it.index, it.index / 64, it.index % 64);
    }

    /** `erase`: move the last dense value into the hole, free the index and bump its generation. */
    method Erase(slot: Slot)
      requires Valid() && slot in Issued && IsSlotValid(slot)
      modifies Repr
      ensures Valid() && Repr == old(Repr) && pages == old(pages)
      ensures Contents == old(Contents) - {slot} && Issued == old(Issued)
      ensures size == old(size) - 1 && head == slot.index && FreeList == [slot.index] + old(FreeList)
      ensures slot.index < |redirect| && redirect[slot.index] == Slot(old(head), slot.generation + 1)
      ensures old(redirect[slot.index].index) < old(|Dense|) && Dense == SwapRemove(old(Dense), old(redirect[slot.index].index))
      ensures var hole, back := old(redirect[slot.index].index), old(backwards[size - 1]);
        && hole < old(|backwards|) && back < old(|redirect|)
        && redirect == old(redirect)[back := old(redirect)[back].(index := hole)][slot.index := Slot(old(head), slot.generation + 1)]
        && backwards == old(backwards)[hole := back]
      ensures !IsSlotValid(slot)
      ensures forall t :: t in old(Issued) && t != slot ==> (IsSlotValid(t) <==> old(IsSlotValid(t)))
    {
      var r, b, n, h := redirect, backwards, size, head;
      ghost var d, f, c := Dense, FreeList, Contents;
      assert slot in c;
      EraseMap(r, b, n, h, f, Capacity(), d, c, Issued, slot);
      // the explicit destructor call of the source is value replacement here
      assert n != 0;  // AR_CRITICAL: size is about to underflow
      var hole := r[slot.index].index;
      MoveLastInto(hole, n, d);
      var back := b[n - 1];
      var relinked := r[back := r[back].(index := hole)];
      // Deviation: the source writes m_backwardsMapping[slot.m_index] (slot_map.hpp:358),
      // indexed by the external index; the inverse needs the dense position of the hole.
      var newBackwards := b[hole := back];
      var newRedirect := relinked[slot.index := Slot(h, r[slot.index].generation + 1)];
      Commit(newRedirect, newBackwards, n - 1, slot.index, SwapRemove(d, hole), [slot.index] + f, c - {slot}, Issued);
    }

    /** `begin()`: an iterator at dense position 0. */
    method Begin() returns (it: Iterator<T>)
      ensures fresh(it) && it.pages == pages && it.index == 0
    {
      it := new Iterator(pages, 0);
    }

    /** `end()`: an iterator at dense position `size`. */
    method End() returns (it: Iterator<T>)
      ensures fresh(it) && it.pages == pages && it.index == size
    {
      it := new Iterator(pages, size);
    }

    /** The range-for walk from `begin()` to `end()`: exactly the dense values, in storage order. */
    method Values() returns (r: seq<T>)
      requires Valid()
      ensures r == Dense && |r| == Size()
    {
      var it := Begin();
      var last := End();
      r := [];
      while !it.SamePosition(last)
        invariant it != last && it.pages == pages && last.index == size
        invariant it.index <= size && r == Dense[..it.index]
        decreases size - it.index
      {
        assert it.Get() == Dense[it.index];
        r := r + [it.Get()];
        it.Next();
      }
    }
  }
}
