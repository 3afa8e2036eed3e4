/** The fixed pool of order slots and its stack of free indices.  A pointer to an order is the index of
    its slot. */
module ObjectPool {
  import opened Types

  class ObjectPool {
    const slots: array<Order>
    var freeIndices: seq<nat>

    constructor (poolSize: nat)
      ensures fresh(slots) && slots.Length == poolSize
      ensures freeIndices == seq(poolSize, i => i)
    {
      slots := new Order[poolSize];
      freeIndices := [];
      new;
      for i := 0 to poolSize
        invariant freeIndices == seq(i, j => j)
      {
        freeIndices := freeIndices + [i];
      }
    }

    /** The most recently freed slot, or nothing when the pool is exhausted. */
    method Allocate() returns (p: Option<nat>)
      modifies this`freeIndices
      ensures old(freeIndices) == [] ==> p == None && freeIndices == []
      ensures old(freeIndices) != [] ==> p.Some? && old(freeIndices) == freeIndices + [p.value]
    {
      if freeIndices == [] {
        return None;
      }
      var index := freeIndices[|freeIndices| - 1];
      freeIndices := freeIndices[..|freeIndices| - 1];
      return Some(index);
    }

    method Deallocate(p: nat)
      requires p < slots.Length
      modifies this`freeIndices
      ensures freeIndices == old(freeIndices) + [p]
    {
      freeIndices := freeIndices + [p];
    }
  }
}
