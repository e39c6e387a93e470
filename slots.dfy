/** Generation-checked handles shared by the SlotMap and by the SlotGenerator /
    SparseStorage pair. Both C++ `Slot` classes have the same two fields (a
    24-bit index and a 40-bit generation) and the same default constructor. */
module Slots {

  /** The index of a default-constructed handle: 24 bits, all ones. */
  const INVALID_INDEX: nat := 0xFFFFFF

  /** A handle: the external index and the generation it was issued with. */
  datatype Slot = Slot(index: nat, generation: nat)

  /** `Slot()`: the handle no structure ever issues. */
  function DefaultSlot(): (r: Slot)
    ensures r.index == INVALID_INDEX && r.generation == 0
  {
    Slot(INVALID_INDEX, 0)
  }

  /** `Slot::operator==`: field-wise comparison, which is value equality. */
  function SameSlot(a: Slot, b: Slot): (r: bool)
    ensures r <==> a == b
  {
    a.index == b.index && a.generation == b.generation
  }

  /** `Slot::operator!=`: the negation of `operator==`. */
  function DifferentSlot(a: Slot, b: Slot): (r: bool)
    ensures r <==> a != b
  {
    !SameSlot(a, b)
  }

  /** The indices lo, lo+1, ..., hi-1 in increasing order. */
  function Range(lo: nat, hi: nat): (r: seq<nat>)
    requires lo <= hi
    ensures |r| == hi - lo
    ensures forall k :: 0 <= k < |r| ==> r[k] == lo + k
  {
    seq(hi - lo, k => lo + k)
  }

  /** Removes position `p` by moving the last element into it and dropping the last place:
      the swap-and-pop with which both dense stores erase. */
  function SwapRemove<T>(s: seq<T>, p: nat): (r: seq<T>)
    requires p < |s|
    ensures |r| == |s| - 1
    ensures forall k :: 0 <= k < |r| && k != p ==> r[k] == s[k]
    ensures p < |r| ==> r[p] == s[|s| - 1]
  {
    s[p := s[|s| - 1]][..|s| - 1]
  }

  /** No index occurs twice in `s`. */
  ghost predicate Distinct(s: seq<nat>)
  {
    forall j, k :: 0 <= j < k < |s| ==> s[j] != s[k]
  }
}
