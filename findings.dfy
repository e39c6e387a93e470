/** The four places where the source, as written, breaks the invariant its
    callers rely on. Each is modelled here on values exactly as written, with an
    input that shows the discrepancy; the classes elsewhere implement the
    intended behaviour and prove its invariant. */
module Findings {
  import opened Slots
  import opened FreeLists
  import opened SlotMapTable
  import opened SparseTable

  // --- SlotMap::erase, slot_map.hpp:357-358 -------------------------------

  /** The bookkeeping fields of a `SlotMap`. */
  datatype MapTables = MapTables(redirect: seq<Slot>, backwards: seq<nat>, size: nat, head: nat)

  /** `erase` as written: the backwards mapping is written at the external index `s.index`. */
  function SlotMapEraseAsWritten(r: seq<Slot>, b: seq<nat>, n: nat, h: nat, s: Slot): (t: MapTables)
    requires 0 < n <= |b| && s.index < |r| && s.index < |b| && b[n - 1] < |r|
    ensures t.size == n - 1 && t.head == s.index && |t.backwards| == |b| && t.backwards[s.index] == b[n - 1]
  {
    var back := b[n - 1];
    var r1 := r[back := r[back].(index := r[s.index].index)];
    var b1 := b[s.index := b[n - 1]];
    var r2 := r1[s.index := Slot(h, r1[s.index].generation + 1)];
    MapTables(r2, b1, n - 1, s.index)
  }

  /** Index 1 at dense position 0 and index 0 at dense position 1; erasing `Slot(1, 0)` as written
      leaves dense position 0 mapped back to the freed index 1 instead of to index 0. */
  lemma SlotMapEraseBreaksInverse()
    ensures TableInv([Slot(1, 0), Slot(0, 0)], [1, 0], 2, [], 2)
    ensures (var t := SlotMapEraseAsWritten([Slot(1, 0), Slot(0, 0)], [1, 0], 2, 2, Slot(1, 0));
      t.backwards == [1, 0] && t.redirect[0].index == 0 && !Inverse(t.redirect, t.backwards, t.size, 2))
  {
    var r, b := [Slot(1, 0), Slot(0, 0)], [1, 0];
    var t := SlotMapEraseAsWritten(r, b, 2, 2, Slot(1, 0));
    assert t.redirect == [Slot(0, 0), Slot(2, 1)];
    assert t.redirect[t.backwards[0]].index != 0;
  }

  /** The bookkeeping of a new map: one page of free indices linked in order, no value. */
  function SlotMapFresh(): (t: MapTables)
    ensures |t.redirect| == 64 && |t.backwards| == 64 && t.size == 0 && t.head == 0
  {
    MapTables(FreshEntries(0), FreshBackwards(), 0, 0)
  }

  /** `allocate` as written, when the head is a free index: the bookkeeping of slot_map.hpp:311-324,
      together with the handle it returns. */
  function SlotMapAllocate(t: MapTables): (res: (MapTables, Slot))
    requires t.head < |t.redirect| && t.size < |t.backwards|
    ensures res.1 == Slot(t.head, t.redirect[t.head].generation)
    ensures res.0.size == t.size + 1 && res.0.head == t.redirect[t.head].index
    ensures |res.0.redirect| == |t.redirect| && |res.0.backwards| == |t.backwards|
    ensures res.0.redirect[t.head].index == t.size && res.0.backwards[t.size] == t.head
  {
    var b := t.backwards[t.size := t.head];
    var r := t.redirect[t.head := t.redirect[t.head].(index := t.size)];
    (MapTables(r, b, t.size + 1, t.redirect[t.head].index), Slot(t.head, t.redirect[t.head].generation))
  }

  /** The same defect reached from a new map: allocate `s0`, allocate `s1`, erase `s0`, allocate
      `s2`, then erase `s1`. Before the last erase the tables are inverse and `s1` is valid; after it,
      dense position 0 maps back to the freed index 1. */
  lemma SlotMapEraseFromNewMap()
    ensures (var (t1, s0) := SlotMapAllocate(SlotMapFresh());
      var (t2, s1) := SlotMapAllocate(t1);
      var t3 := SlotMapEraseAsWritten(t2.redirect, t2.backwards, t2.size, t2.head, s0);
      var (t4, s2) := SlotMapAllocate(t3);
      && s0 == Slot(0, 0) && s1 == Slot(1, 0) && s2 == Slot(0, 1)
      && t4.size == 2 && Inverse(t4.redirect, t4.backwards, 2, 64) && t4.redirect[1].generation == s1.generation
      && var t5 := SlotMapEraseAsWritten(t4.redirect, t4.backwards, t4.size, t4.head, s1);
         !Inverse(t5.redirect, t5.backwards, t5.size, 64))
  {
    var t0 := SlotMapFresh();
    assert t0.redirect[0] == Slot(1, 0) && t0.redirect[1] == Slot(2, 0);
    var (t1, s0) := SlotMapAllocate(t0);
    var (t2, s1) := SlotMapAllocate(t1);
    assert t2.redirect[0] == Slot(0, 0) && t2.redirect[1] == Slot(1, 0) && t2.backwards[0] == 0 && t2.backwards[1] == 1;
    var t3 := SlotMapEraseAsWritten(t2.redirect, t2.backwards, t2.size, t2.head, s0);
    assert t3.redirect[0] == Slot(2, 1) && t3.redirect[1] == Slot(0, 0) && t3.backwards[0] == 1 && t3.head == 0 && t3.size == 1;
    var (t4, s2) := SlotMapAllocate(t3);
    assert t4.redirect[0] == Slot(1, 1) && t4.redirect[1] == Slot(0, 0) && t4.backwards[0] == 1 && t4.backwards[1] == 0;
    var t5 := SlotMapEraseAsWritten(t4.redirect, t4.backwards, t4.size, t4.head, s1);
    assert t5.backwards[0] == 1 && t5.redirect[1].index == 2;
  }

  // --- SlotGenerator::release, sparse_storage.cpp:44-48 -------------------

  /** `acquire` without growth: the head entry's generation, and its link becomes the head. */
  function GeneratorAcquire(e: seq<Slot>, h: nat): (res: (Slot, nat))
    requires h < |e|
    ensures res.0.index == h && res.0.generation == e[h].generation && res.1 == e[h].index
  {
    (Slot(h, e[h].generation), e[h].index)
  }

  /** `release` as written: the generation is bumped, but the old head is stored into the by-value
      parameter, so the freed entry keeps the link it had when it was acquired. */
  function GeneratorReleaseAsWritten(e: seq<Slot>, h: nat, s: Slot): (res: (seq<Slot>, nat))
    requires s.index < |e|
    ensures |res.0| == |e| && res.1 == s.index
    ensures res.0[s.index].index == e[s.index].index && res.0[s.index].generation == e[s.index].generation + 1
    ensures forall i :: 0 <= i < |e| && i != s.index ==> res.0[i] == e[i]
  {
    (e[s.index := e[s.index].(generation := e[s.index].generation + 1)], s.index)
  }

  /** On a fresh generator: acquire 0, acquire 1, release 0, acquire (index 0 again), acquire. As
      written, the last acquire hands out `Slot(1, 0)` a second time, while it is still live.
      With the link written into the entry, as the model's `release` does, it hands out index 2. */
  lemma GeneratorReleaseReissues()
    ensures (var (a, h1) := GeneratorAcquire(FreshEntries(0), 0);
      var (b, h2) := GeneratorAcquire(FreshEntries(0), h1);
      var (e1, h3) := GeneratorReleaseAsWritten(FreshEntries(0), h2, a);
      var (c, h4) := GeneratorAcquire(e1, h3);
      var (d, _) := GeneratorAcquire(e1, h4);
      a == Slot(0, 0) && b == Slot(1, 0) && c == Slot(0, 1) && d == b)
    ensures (var e2 := FreshEntries(0)[0 := Slot(2, 1)];
      var (c, h4) := GeneratorAcquire(e2, 0);
      var (d, _) := GeneratorAcquire(e2, h4);
      c == Slot(0, 1) && d == Slot(2, 0))
  {
    var e0 := FreshEntries(0);
    assert e0[0] == Slot(1, 0) && e0[1] == Slot(2, 0) && e0[2] == Slot(3, 0);
  }

  // --- SparseStorage::erase, sparse_storage.hpp:193-199 -------------------

  /** `erase` as written: the key's entry is emptied and the last value moved into the hole, but the
      entry that named the last position is left as it was. */
  function SparseEraseAsWritten<T>(e: seq<Slot>, d: seq<T>, s: Slot): (res: (seq<Slot>, seq<T>))
    requires s.index < |e| && e[s.index].index < |d|
    ensures |res.0| == |e| && |res.1| == |d| - 1
    ensures res.0[s.index] == Slot(INVALID_INDEX, e[s.index].generation + 1)
    ensures forall i :: 0 <= i < |e| && i != s.index ==> res.0[i] == e[i]
  {
    var location := e[s.index].index;
    (e[s.index := Slot(INVALID_INDEX, e[s.index].generation + 1)], SwapRemove(d, location))
  }

  /** Keys 0 and 1 hold 10 and 20; erasing key 0 as written leaves key 1 assigned but naming dense
      position 1 of a one-element storage, so `at` reads past the end. With the owner map's
      redirection, key 1 names position 0, which holds its value 20. */
  lemma SparseEraseLosesMovedKey()
    ensures StoreInv([Slot(0, 0), Slot(1, 0)], [10, 20], [0, 1], map[Slot(0, 0) := 10, Slot(1, 0) := 20])
    ensures (var (e, d) := SparseEraseAsWritten([Slot(0, 0), Slot(1, 0)], [10, 20], Slot(0, 0));
      Holds(e, Slot(1, 0)) && |d| == 1 && e[1].index == 1)
    ensures (var e := ErasedEntries([Slot(0, 0), Slot(1, 0)], [0, 1], Slot(0, 0));
      Holds(e, Slot(1, 0)) && e[1].index == 0 && SwapRemove([10, 20], 0) == [20])
  {
    var e, d, o := [Slot(0, 0), Slot(1, 0)], [10, 20], [0, 1];
    var c := map[Slot(0, 0) := 10, Slot(1, 0) := 20];
    forall s | true
      ensures s in c <==> Holds(e, s)
    {
      if s.index == 0 || s.index == 1 {
        assert e[s.index] == Slot(s.index, 0);
      }
    }
    assert ErasedEntries(e, o, Slot(0, 0)) == [Slot(INVALID_INDEX, 1), Slot(0, 0)];
  }

  // --- SparseStorage::_prepareRedirectionMemory, sparse_storage.hpp:225-231

  /** The page count after the resize as written: `pageNum + 1` whenever the key's index is at most
      the capacity, and no change otherwise. */
  function PreparedPageCountAsWritten(count: nat, index: nat): (r: nat)
    ensures index <= count * 64 ==> r == index / 64 + 1
    ensures index > count * 64 ==> r == count
  {
    if index <= count * 64 then index / 64 + 1 else count
  }

  /** As written, touching a key on a lower page drops every page above it. */
  lemma PrepareAsWrittenDropsPages(count: nat, index: nat)
    requires index / 64 + 1 < count
    ensures PreparedPageCountAsWritten(count, index) < count
  {
  }

  /** As written, a key beyond the capacity leaves its page missing, and the page access that
      follows is out of range. */
  lemma PrepareAsWrittenSkipsGrowth(count: nat, index: nat)
    requires index > count * 64
    ensures PreparedPageCountAsWritten(count, index) <= index / 64
  {
  }

  /** Concretely: three pages and index 5 keep one page; one page and index 1000 keep one page,
      while index 1000 lies on page 15. */
  lemma PrepareAsWrittenExamples()
    ensures PreparedPageCountAsWritten(3, 5) == 1
    ensures PreparedPageCountAsWritten(1, 1000) == 1 && 1000 / 64 == 15
  {
  }
}
