/** The per-type component container: dense storage addressed directly by
    entity slot, which grows on demand and never shrinks. Every component
    payload is modelled as an `int`. */
module Containers {
  /** The cells after writing `v` at `slot`: a write past the end first grows
      the storage to `slot + 1` cells; cells already present keep their values
      at their indices. The grown cells hold an unspecified filler. */
  function Store(cells: seq<int>, slot: nat, v: int): (r: seq<int>)
    ensures |r| == if slot < |cells| then |cells| else slot + 1
    ensures r[slot] == v
    ensures forall k :: 0 <= k < |cells| && k != slot ==> r[k] == cells[k]
  {
    if slot < |cells| then cells[slot := v]
    else cells + seq(slot - |cells|, _ => 0) + [v]
  }

  /** `after` still holds every cell of `before` except possibly the one at `slot`. */
  predicate KeepsCellsExcept(before: seq<int>, after: seq<int>, slot: nat) {
    |before| <= |after| && forall k :: 0 <= k < |before| && k != slot ==> after[k] == before[k]
  }

  class Container {
    var cells: seq<int>

    constructor ()
      ensures cells == []
    {
      cells := [];
    }

    /** Reads a slot that the storage already covers. */
    method Get(slot: nat) returns (v: int)
      requires slot < |cells|
      ensures v == cells[slot]
    {
      v := cells[slot];
    }

    /** Writes a slot, growing the storage when the slot lies past its end. */
    method Set(slot: nat, v: int)
      modifies this
      ensures cells == Store(old(cells), slot, v)
    {
      cells := Store(cells, slot, v);
    }
  }
}
