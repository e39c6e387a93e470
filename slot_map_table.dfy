/** The index bookkeeping of `SlotMap`, stated on values.

    `r` is the redirect table, `b` the backwards mapping, `n` the number of
    live values, `f` the free indices in free-list order and `cap` the
    capacity. An index is live when its redirect entry names a dense position
    below `n` whose backwards entry names the index again; every other index
    in the table is on the free list, whose links run through the `index`
    fields of the redirect entries and end at `cap`. */
module SlotMapTable {
  import opened Slots
  import opened FreeLists

  /** Index `i` holds a value: its dense position is in use and maps back to `i`. */
  ghost predicate LiveIndex(r: seq<Slot>, b: seq<nat>, n: nat, i: nat)
  {
    i < |r| && r[i].index < n <= |b| && b[r[i].index] == i
  }

  /** Handle `s` refers to a value: its index is live and its generation is current. */
  ghost predicate LiveSlot(r: seq<Slot>, b: seq<nat>, n: nat, s: Slot)
  {
    LiveIndex(r, b, n, s.index) && r[s.index].generation == s.generation
  }

  /** Every dense position below `n` names an index whose redirect entry names the position again. */
  ghost predicate Inverse(r: seq<Slot>, b: seq<nat>, n: nat, cap: nat)
  {
    && |r| == cap && |b| == cap && n <= cap
    && (forall pos :: 0 <= pos < n ==> b[pos] < cap && r[b[pos]].index == pos)
  }

  /** The free indices are in the table and hold no value. */
  ghost predicate FreeUnused(r: seq<Slot>, b: seq<nat>, n: nat, f: seq<nat>, cap: nat)
  {
    forall k :: 0 <= k < |f| ==> f[k] < cap && !LiveIndex(r, b, n, f[k])
  }

  /** The free list: distinct indices that hold no value, each linked to the next, the last to `cap`. */
  ghost predicate FreeChain(r: seq<Slot>, b: seq<nat>, n: nat, f: seq<nat>, cap: nat)
  {
    Distinct(f) && FreeUnused(r, b, n, f, cap) && FreeLinks(r, f, cap)
  }

  /** The index part of the `SlotMap` invariant. */
  ghost predicate TableInv(r: seq<Slot>, b: seq<nat>, n: nat, f: seq<nat>, cap: nat)
  {
    n + |f| == cap && Inverse(r, b, n, cap) && FreeChain(r, b, n, f, cap)
  }

  /** The live handles are exactly the handles with a live index and the current generation. */
  ghost predicate LiveContents<T>(r: seq<Slot>, b: seq<nat>, n: nat, contents: map<Slot, T>)
  {
    forall s {:trigger s in contents} :: s in contents <==> LiveSlot(r, b, n, s)
  }

  /** Each live handle refers to the dense value at the position its redirect entry names. */
  ghost predicate HeldValues<T>(r: seq<Slot>, dense: seq<T>, contents: map<Slot, T>)
  {
    forall s {:trigger contents[s]} :: s in contents ==>
      s.index < |r| && r[s.index].index < |dense| && contents[s] == dense[r[s.index].index]
  }

  /** A handle once issued keeps a generation no newer than its index's, and is live while they agree. */
  ghost predicate StaleIssued<T>(r: seq<Slot>, contents: map<Slot, T>, issued: set<Slot>)
  {
    forall s {:trigger s in issued} :: s in issued ==>
      s.index < |r| && s.generation <= r[s.index].generation &&
      (s.generation == r[s.index].generation ==> s in contents)
  }

  /** The handle part of the `SlotMap` invariant. */
  ghost predicate ViewInv<T>(r: seq<Slot>, b: seq<nat>, n: nat, dense: seq<T>, contents: map<Slot, T>, issued: set<Slot>)
  {
    LiveContents(r, b, n, contents) && HeldValues(r, dense, contents) && StaleIssued(r, contents, issued)
  }

  /** From the head, `cap - n` links visit distinct indices in the table and then reach `cap`. */
  lemma FreeChainAcyclic(r: seq<Slot>, b: seq<nat>, n: nat, f: seq<nat>, cap: nat)
    requires TableInv(r, b, n, f, cap)
    ensures HeadOf(f, cap) <= cap
    ensures Follow(r, HeadOf(f, cap), cap - n) == cap
    ensures forall k :: 0 <= k < cap - n ==> Follow(r, HeadOf(f, cap), k) < cap
    ensures forall j, k :: 0 <= j < k <= cap - n ==> Follow(r, HeadOf(f, cap), j) != Follow(r, HeadOf(f, cap), k)
  {
    if f != [] {
      assert forall k :: 0 <= k < |f| ==> f[k] < |r|;
      FollowFree(r, f, cap);
      forall j, k | 0 <= j < k <= |f|
        ensures Follow(r, f[0], j) != Follow(r, f[0], k)
      {
        assert Follow(r, f[0], j) == f[j] < cap;
      }
    }
  }

  /** The 64 backwards entries a new page adds, value-initialised. */
  function FreshBackwards(): seq<nat>
  {
    seq(64, _ => 0)
  }

  /** Growing by one page appends the fresh indices, in increasing order, to the free list. */
  lemma GrowTable(r: seq<Slot>, b: seq<nat>, n: nat, f: seq<nat>, cap: nat)
    requires TableInv(r, b, n, f, cap)
    ensures TableInv(r + FreshEntries(cap), b + FreshBackwards(), n, f + Range(cap, cap + 64), cap + 64)
  {
    var r', b', f' := r + FreshEntries(cap), b + FreshBackwards(), f + Range(cap, cap + 64);
    forall k | 0 <= k < |f'|
      ensures f'[k] < cap + 64 && !LiveIndex(r', b', n, f'[k])
      ensures r'[f'[k]].index == NextIn(f', k, cap + 64)
    {
      if k < |f| {
        assert f'[k] == f[k];
        assert r[f[k]].index == NextIn(f, k, cap);
      } else {
        assert f'[k] == cap + k - |f|;
      }
    }
  }

  /** The fresh entries hold no value, so growing the table changes no handle. */
  lemma GrowView<T>(r: seq<Slot>, b: seq<nat>, n: nat, cap: nat, dense: seq<T>, contents: map<Slot, T>, issued: set<Slot>)
    requires ViewInv(r, b, n, dense, contents, issued) && |r| == cap && |b| == cap && n <= cap
    ensures ViewInv(r + FreshEntries(cap), b + FreshBackwards(), n, dense, contents, issued)
  {
    var r', b' := r + FreshEntries(cap), b + FreshBackwards();
    forall s ensures s in contents <==> LiveSlot(r', b', n, s) {
      if s.index < cap {
        assert LiveSlot(r, b, n, s) <==> LiveSlot(r', b', n, s);
      }
    }
  }

  /** Taking the head of the free list for dense position `n` keeps the table invariant,
      and the head's old link is the new head. */
  lemma AllocTable(r: seq<Slot>, b: seq<nat>, n: nat, f: seq<nat>, cap: nat)
    requires TableInv(r, b, n, f, cap) && f != []
    ensures n < cap && f[0] < cap
    ensures TableInv(r[f[0] := r[f[0]].(index := n)], b[n := f[0]], n + 1, f[1..], cap)
    ensures r[f[0]].index == HeadOf(f[1..], cap)
  {
    var h := f[0];
    var r', b', f' := r[h := r[h].(index := n)], b[n := h], f[1..];
    assert r[h].index == NextIn(f, 0, cap);
    forall pos | 0 <= pos < n + 1
      ensures b'[pos] < cap && r'[b'[pos]].index == pos
    {
      if pos < n {
        assert b[pos] != h by {
          assert !LiveIndex(r, b, n, f[0]);
        }
      }
    }
    forall k | 0 <= k < |f'|
      ensures f'[k] < cap && !LiveIndex(r', b', n + 1, f'[k])
      ensures r'[f'[k]].index == NextIn(f', k, cap)
    {
      assert f'[k] == f[k + 1] && f[k + 1] != h;
      assert r[f[k + 1]].index == NextIn(f, k + 1, cap);
      assert !LiveIndex(r, b, n, f[k + 1]);
    }
  }

  /** Allocation makes the head's current handle live, holding `v` at dense position `n`;
      that handle was neither live nor issued before. */
  lemma AllocView<T>(r: seq<Slot>, b: seq<nat>, n: nat, f: seq<nat>, cap: nat,
                     dense: seq<T>, contents: map<Slot, T>, issued: set<Slot>, v: T)
    requires TableInv(r, b, n, f, cap) && ViewInv(r, b, n, dense, contents, issued) && f != [] && |dense| == n
    ensures Slot(f[0], r[f[0]].generation) !in contents && Slot(f[0], r[f[0]].generation) !in issued
    ensures var s := Slot(f[0], r[f[0]].generation);
            ViewInv(r[f[0] := r[f[0]].(index := n)], b[n := f[0]], n + 1, dense + [v], contents[s := v], issued + {s})
  {
    var h := f[0];
    var s := Slot(h, r[h].generation);
    var r', b', dense', contents', issued' := r[h := r[h].(index := n)], b[n := h], dense + [v], contents[s := v], issued + {s};
    assert !LiveIndex(r, b, n, h);
    forall t ensures t in contents' <==> LiveSlot(r', b', n + 1, t) {
      if t.index != h && t.index < |r| {
        assert r'[t.index] == r[t.index];
        if r[t.index].index < n {
          assert b'[r[t.index].index] == b[r[t.index].index];
        }
      }
    }
    forall t | t in contents'
      ensures t.index < |r'| && r'[t.index].index < |dense'| && contents'[t] == dense'[r'[t.index].index]
    {
      if t != s {
        assert t in contents && t.index != h;
      }
    }
    forall t | t in issued'
      ensures t.index < |r'| && t.generation <= r'[t.index].generation &&
              (t.generation == r'[t.index].generation ==> t in contents')
    {
      if t != s {
        assert t in issued;
      }
    }
  }

  /** Moving the back element into the hole of the live index `e` keeps the two mappings inverse. */
  lemma EraseInverse(r: seq<Slot>, b: seq<nat>, n: nat, f: seq<nat>, cap: nat, e: nat)
    requires Inverse(r, b, n, cap) && LiveIndex(r, b, n, e)
    ensures var hole, back := r[e].index, b[n - 1];
            Inverse(r[back := r[back].(index := hole)][e := Slot(HeadOf(f, cap), r[e].generation + 1)],
                    b[hole := back], n - 1, cap)
  {
    var hole, back := r[e].index, b[n - 1];
    var r' := r[back := r[back].(index := hole)][e := Slot(HeadOf(f, cap), r[e].generation + 1)];
    var b' := b[hole := back];
    assert r[back].index == n - 1;
    forall pos | 0 <= pos < n - 1
      ensures b'[pos] < cap && r'[b'[pos]].index == pos
    {
      if pos != hole {
        assert b[pos] != e && b[pos] != back;
      }
    }
  }

  /** The erased index `e` holds no value afterwards, and no free index gained one. */
  lemma EraseUnused(r: seq<Slot>, b: seq<nat>, n: nat, f: seq<nat>, cap: nat, e: nat)
    requires Inverse(r, b, n, cap) && FreeUnused(r, b, n, f, cap) && LiveIndex(r, b, n, e)
    ensures var hole, back := r[e].index, b[n - 1];
            FreeUnused(r[back := r[back].(index := hole)][e := Slot(HeadOf(f, cap), r[e].generation + 1)],
                       b[hole := back], n - 1, [e] + f, cap)
  {
    var hole, back := r[e].index, b[n - 1];
    var r' := r[back := r[back].(index := hole)][e := Slot(HeadOf(f, cap), r[e].generation + 1)];
    var b', f' := b[hole := back], [e] + f;
    assert r[back].index == n - 1;
    forall k | 0 <= k < |f'|
      ensures f'[k] < cap && !LiveIndex(r', b', n - 1, f'[k])
    {
      if k == 0 {
        if r'[e].index < n - 1 {
          var p := r'[e].index;
          if p != hole {
            assert r[b[p]].index == p;
          }
        }
      } else {
        var x := f[k - 1];
        assert f'[k] == x && !LiveIndex(r, b, n, x) && x != e && x != back;
        if r[x].index < n - 1 && r[x].index == hole {
          assert b'[hole] == back;
        }
      }
    }
  }

  /** The erased index is linked to the old head; the other links are untouched. */
  lemma EraseLinks(r: seq<Slot>, b: seq<nat>, n: nat, f: seq<nat>, cap: nat, e: nat)
    requires Inverse(r, b, n, cap) && FreeUnused(r, b, n, f, cap) && FreeLinks(r, f, cap) && LiveIndex(r, b, n, e)
    ensures var hole, back := r[e].index, b[n - 1];
            FreeLinks(r[back := r[back].(index := hole)][e := Slot(HeadOf(f, cap), r[e].generation + 1)], [e] + f, cap)
  {
    var hole, back := r[e].index, b[n - 1];
    var r' := r[back := r[back].(index := hole)][e := Slot(HeadOf(f, cap), r[e].generation + 1)];
    var f' := [e] + f;
    assert r[back].index == n - 1;
    forall k | 0 <= k < |f'| && f'[k] < |r'| ensures r'[f'[k]].index == NextIn(f', k, cap) {
      if k > 0 {
        var x := f[k - 1];
        assert f'[k] == x && x != e && x != back by {
          assert !LiveIndex(r, b, n, x);
        }
        assert r[x].index == NextIn(f, k - 1, cap);
      }
    }
  }

  /** The erased index was not free, so the free list stays repetition-free. */
  lemma EraseDistinct(r: seq<Slot>, b: seq<nat>, n: nat, f: seq<nat>, cap: nat, e: nat)
    requires FreeUnused(r, b, n, f, cap) && Distinct(f) && LiveIndex(r, b, n, e)
    ensures Distinct([e] + f)
  {
    var f' := [e] + f;
    forall j, k | 0 <= j < k < |f'| ensures f'[j] != f'[k] {
      if j == 0 {
        assert !LiveIndex(r, b, n, f[k - 1]);
      } else {
        assert f'[j] == f[j - 1] && f'[k] == f[k - 1];
      }
    }
  }

  /** Erasing the live index `e` keeps the table invariant. */
  lemma EraseTable(r: seq<Slot>, b: seq<nat>, n: nat, f: seq<nat>, cap: nat, e: nat)
    requires TableInv(r, b, n, f, cap) && LiveIndex(r, b, n, e)
    ensures 0 < n && r[e].index < n && b[r[e].index] == e
    ensures var hole, back := r[e].index, b[n - 1];
            TableInv(r[back := r[back].(index := hole)][e := Slot(HeadOf(f, cap), r[e].generation + 1)],
                     b[hole := back], n - 1, [e] + f, cap)
  {
    EraseInverse(r, b, n, f, cap, e);
    EraseUnused(r, b, n, f, cap, e);
    EraseLinks(r, b, n, f, cap, e);
    EraseDistinct(r, b, n, f, cap, e);
  }

  /** After the erase exactly the other handles stay live; the moved value keeps its handle. */
  lemma EraseLive<T>(r: seq<Slot>, b: seq<nat>, n: nat, f: seq<nat>, cap: nat, contents: map<Slot, T>, slot: Slot)
    requires Inverse(r, b, n, cap) && LiveContents(r, b, n, contents) && slot in contents
    ensures var e, hole, back := slot.index, r[slot.index].index, b[n - 1];
            LiveContents(r[back := r[back].(index := hole)][e := Slot(HeadOf(f, cap), r[e].generation + 1)],
                         b[hole := back], n - 1, contents - {slot})
  {
    var e, hole, back := slot.index, r[slot.index].index, b[n - 1];
    var r' := r[back := r[back].(index := hole)][e := Slot(HeadOf(f, cap), r[e].generation + 1)];
    var b', contents' := b[hole := back], contents - {slot};
    assert LiveSlot(r, b, n, slot);
    assert r[back].index == n - 1;
    forall t ensures t in contents' <==> LiveSlot(r', b', n - 1, t) {
      if t.index < |r| {
        if t.index == e {
          if r'[e].index < n - 1 {
            var p := r'[e].index;
            if p != hole {
              assert r[b[p]].index == p;
            }
          }
        } else if t.index != back {
          assert r'[t.index] == r[t.index];
          var p := r[t.index].index;
          if p < n && b[p] == t.index {
            assert p != n - 1 && p != hole;
          }
          if p < n - 1 && p == hole {
            assert b'[p] == back;
          }
        }
      }
    }
  }

  /** After the erase every remaining handle still refers to its value, now in the shrunk dense region. */
  lemma EraseHeld<T>(r: seq<Slot>, b: seq<nat>, n: nat, f: seq<nat>, cap: nat,
                     dense: seq<T>, contents: map<Slot, T>, slot: Slot)
    requires TableInv(r, b, n, f, cap) && LiveContents(r, b, n, contents) && HeldValues(r, dense, contents)
    requires |dense| == n && slot in contents
    ensures var e, hole, back := slot.index, r[slot.index].index, b[n - 1];
            HeldValues(r[back := r[back].(index := hole)][e := Slot(HeadOf(f, cap), r[e].generation + 1)],
                       SwapRemove(dense, hole), contents - {slot})
  {
    var e, hole, back := slot.index, r[slot.index].index, b[n - 1];
    var r' := r[back := r[back].(index := hole)][e := Slot(HeadOf(f, cap), r[e].generation + 1)];
    var dense', contents' := SwapRemove(dense, hole), contents - {slot};
    assert LiveSlot(r, b, n, slot);
    assert r[back].index == n - 1;
    forall t | t in contents'
      ensures t.index < |r'| && r'[t.index].index < |dense'| && contents'[t] == dense'[r'[t.index].index]
    {
      assert t in contents && t.index != e;
      assert LiveSlot(r, b, n, t);
      if t.index != back {
        assert r'[t.index] == r[t.index];
      }
    }
  }

  /** Erasing `slot` keeps the handle invariant. */
  lemma EraseView<T>(r: seq<Slot>, b: seq<nat>, n: nat, f: seq<nat>, cap: nat,
                     dense: seq<T>, contents: map<Slot, T>, issued: set<Slot>, slot: Slot)
    requires TableInv(r, b, n, f, cap) && ViewInv(r, b, n, dense, contents, issued) && |dense| == n
    requires slot in contents
    ensures LiveIndex(r, b, n, slot.index)
    ensures var e, hole, back := slot.index, r[slot.index].index, b[n - 1];
            ViewInv(r[back := r[back].(index := hole)][e := Slot(HeadOf(f, cap), r[e].generation + 1)],
                    b[hole := back], n - 1, SwapRemove(dense, hole), contents - {slot}, issued)
  {
    EraseLive(r, b, n, f, cap, contents, slot);
    EraseHeld(r, b, n, f, cap, dense, contents, slot);
  }

  /** The whole `SlotMap` invariant on values: the table, the head, the dense region and the handles. */
  ghost predicate MapInv<T>(r: seq<Slot>, b: seq<nat>, n: nat, h: nat, f: seq<nat>, cap: nat,
                            dense: seq<T>, contents: map<Slot, T>, issued: set<Slot>)
  {
    && TableInv(r, b, n, f, cap)
    && h == HeadOf(f, cap)
    && |dense| == n
    && ViewInv(r, b, n, dense, contents, issued)
  }

  /** `_pushDirectPage` on values: the head is unchanged and the fresh indices join the free list. */
  lemma GrowMap<T>(r: seq<Slot>, b: seq<nat>, n: nat, h: nat, f: seq<nat>, cap: nat,
                   dense: seq<T>, contents: map<Slot, T>, issued: set<Slot>)
    requires MapInv(r, b, n, h, f, cap, dense, contents, issued)
    ensures MapInv(r + FreshEntries(cap), b + FreshBackwards(), n, h, f + Range(cap, cap + 64), cap + 64,
                   dense, contents, issued)
  {
    GrowTable(r, b, n, f, cap);
    GrowView(r, b, n, cap, dense, contents, issued);
  }

  /** `allocate` on values, once a free index exists: the new handle is fresh and maps to `v`. */
  lemma AllocMap<T>(r: seq<Slot>, b: seq<nat>, n: nat, h: nat, f: seq<nat>, cap: nat,
                    dense: seq<T>, contents: map<Slot, T>, issued: set<Slot>, v: T)
    requires MapInv(r, b, n, h, f, cap, dense, contents, issued) && h < cap
    ensures f != [] && h == f[0] && n < cap
    ensures Slot(h, r[h].generation) !in contents && Slot(h, r[h].generation) !in issued
    ensures var s := Slot(h, r[h].generation);
            MapInv(r[h := r[h].(index := n)], b[n := h], n + 1, r[h].index, f[1..], cap,
                   dense + [v], contents[s := v], issued + {s})
  {
    AllocTable(r, b, n, f, cap);
    AllocView(r, b, n, f, cap, dense, contents, issued, v);
  }

  /** `erase` on values: the last dense value fills the hole, and the freed index heads the free list. */
  lemma EraseMap<T>(r: seq<Slot>, b: seq<nat>, n: nat, h: nat, f: seq<nat>, cap: nat,
                    dense: seq<T>, contents: map<Slot, T>, issued: set<Slot>, slot: Slot)
    requires MapInv(r, b, n, h, f, cap, dense, contents, issued) && slot in contents
    ensures LiveIndex(r, b, n, slot.index) && 0 < n && b[r[slot.index].index] == slot.index
    ensures var e, hole, back := slot.index, r[slot.index].index, b[n - 1];
            MapInv(r[back := r[back].(index := hole)][e := Slot(h, r[e].generation + 1)], b[hole := back], n - 1, e, [e] + f, cap,
                   SwapRemove(dense, hole), contents - {slot}, issued)
  {
    EraseView(r, b, n, f, cap, dense, contents, issued, slot);
    EraseTable(r, b, n, f, cap, slot.index);
  }
  /** A write through the reference `at` returns: the handle's dense value is replaced, and every
      other live handle, whose dense position differs, keeps its value. */
  lemma UpdateMap<T>(r: seq<Slot>, b: seq<nat>, n: nat, h: nat, f: seq<nat>, cap: nat,
                     dense: seq<T>, contents: map<Slot, T>, issued: set<Slot>, slot: Slot, v: T)
    requires MapInv(r, b, n, h, f, cap, dense, contents, issued) && slot in contents
    ensures slot.index < |r| && r[slot.index].index < |dense| <= cap
    ensures MapInv(r, b, n, h, f, cap, dense[r[slot.index].index := v], contents[slot := v], issued)
  {
    var p := r[slot.index].index;
    var c' := contents[slot := v];
    assert LiveSlot(r, b, n, slot);
    forall t | t in c'
      ensures t.index < |r| && r[t.index].index < |dense| && c'[t] == dense[p := v][r[t.index].index]
    {
      if t != slot {
        assert t in contents && LiveSlot(r, b, n, t);
        assert r[t.index].index != p;
      }
    }
  }
}
