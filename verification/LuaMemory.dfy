/** The mutable heap of a Lua state, and heaps that only grow. */
module LuaMemory {
  import opened LuaHeap

  ghost predicate Extends(h: Heap, h': Heap) {
    forall r :: r in h ==> r in h' && h'[r] == h[r]
  }

  /** The tables of `h'` that are not in `h`, with `json.null`. */
  ghost function NewTables(h: Heap, h': Heap): Heap {
    map r | r in h' && (r !in h || r == NULL) :: h'[r]
  }

  /** The new tables other than the one under construction. */
  ghost function Inner(h: Heap, h': Heap, r: nat): Heap {
    NewTables(h, h') - {r}
  }

  lemma InnerUnchanged(start: Heap, h: Heap, r: nat, t: TableData)
    requires r in h && r !in start
    ensures Inner(start, h[r := t], r) == Inner(start, h, r)
  {
  }

  class Memory {
    var heap: Heap
    var next: nat    // every identity from here on is unused

    constructor (heap: Heap, next: nat)
      ensures this.heap == heap && this.next == next
    {
      this.heap := heap;
      this.next := next;
    }

    ghost predicate Valid()
      reads this
    {
      true == (WellFormed(heap) && forall r :: r in heap ==> r < next)
    }

    method CreateTable(marked: bool) returns (r: nat)
      requires Valid()
      modifies this
      ensures Valid() && r == old(next) && next == r + 1
      ensures heap == old(heap)[r := TableData(map[], marked, false)]
    {
      r := next;
      heap := heap[r := TableData(map[], marked, false)];
      next := next + 1;
    }

    method RawSet(r: nat, k: Value, v: Value)
      requires Valid() && r in heap && r != NULL && ValidEntry(heap, k, v)
      modifies `heap
      ensures Valid()
      ensures heap == old(heap)[r := old(heap)[r].(entries := old(heap)[r].entries[k := v])]
    {
      heap := heap[r := heap[r].(entries := heap[r].entries[k := v])];
    }
  }
}
