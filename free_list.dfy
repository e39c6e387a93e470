/** The free list both `SlotMap` and `SlotGenerator` thread through their slot tables, and the
    page arithmetic they share.

    `r` is the slot table and `f` the free indices in free-list order; `cap` is the table's
    capacity. The `index` field of the entry of each free index names the next free index, and
    the last one names `cap`, one past the end. Both structures keep their entries in pages of 64:
    `SlotMap` with `NUM_OBJECTS_PER_PAGE` instantiated to 64, `SlotGenerator` with
    `SLOTS_PER_PAGES == 64`. */
module FreeLists {
  import opened Slots

  /** Position `p` is slot `j` of page `k` exactly when `p == k * 64 + j`. */
  lemma PagePosition(p: nat, k: nat, j: nat)
    requires j < 64
    ensures (p / 64 == k && p % 64 == j) <==> p == k * 64 + j
  {
  }

  /** The free index the link of `f[k]` names: the next one, or `cap` after the last. */
  function NextIn(f: seq<nat>, k: nat, cap: nat): nat
  {
    if k + 1 < |f| then f[k + 1] else cap
  }

  /** The head a free list gives: its first index, or `cap` when no index is free. */
  function HeadOf(f: seq<nat>, cap: nat): nat
  {
    if f == [] then cap else f[0]
  }

  /** Each free index is linked to the next one, the last to `cap`. */
  ghost predicate FreeLinks(r: seq<Slot>, f: seq<nat>, cap: nat)
  {
    forall k {:trigger r[f[k]]} :: 0 <= k < |f| && f[k] < |r| ==> r[f[k]].index == NextIn(f, k, cap)
  }

  /** The index reached by following `k` table links from index `i`. */
  ghost function Follow(r: seq<Slot>, i: nat, k: nat): nat
    decreases k
  {
    if k == 0 || i >= |r| then i else Follow(r, r[i].index, k - 1)
  }

  /** Following links from `f[j]` walks the rest of the free list in order, then reaches `cap`. */
  lemma {:induction false} FollowFreeList(r: seq<Slot>, f: seq<nat>, cap: nat, j: nat, k: nat)
    requires FreeLinks(r, f, cap) && forall k :: 0 <= k < |f| ==> f[k] < |r|
    requires j < |f| && j + k <= |f|
    ensures Follow(r, f[j], k) == (if j + k < |f| then f[j + k] else cap)
    decreases k
  {
    if k > 0 {
      assert r[f[j]].index == NextIn(f, j, cap);
      if j + 1 < |f| {
        FollowFreeList(r, f, cap, j + 1, k - 1);
      }
    }
  }

  /** From the first free index, `k` links reach `f[k]`, and `|f|` links reach `cap`. */
  lemma FollowFree(r: seq<Slot>, f: seq<nat>, cap: nat)
    requires FreeLinks(r, f, cap) && (forall k :: 0 <= k < |f| ==> f[k] < |r|) && f != []
    ensures forall k :: 0 <= k <= |f| ==> Follow(r, f[0], k) == if k < |f| then f[k] else cap
  {
    forall k | 0 <= k <= |f|
      ensures Follow(r, f[0], k) == if k < |f| then f[k] else cap
    {
      FollowFreeList(r, f, cap, 0, k);
    }
  }

  /** The 64 table entries a new page adds after `cap`: generation 0, each linked to the next index. */
  function FreshEntries(cap: nat): (r: seq<Slot>)
    ensures |r| == 64 && r[63].index == cap + 64
    ensures forall i :: 0 <= i < 64 ==> r[i].index == cap + i + 1 && r[i].generation == 0
  {
    seq(64, i requires 0 <= i => Slot(cap + i + 1, 0))
  }
}
