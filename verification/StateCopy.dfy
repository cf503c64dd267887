/** `copy`: a fresh tree-shaped copy of an acyclic value, refused on a cycle. */
module StateCopy {
  import opened LuaHeap
  import opened LuaMemory
  import opened StateTree

  datatype CopyError = ContainsCycle

  /** State values are keyed by strings and numbers, never by tables. */
  ghost predicate ScalarKeys(h: Heap) {
    forall r, k :: r in h && k in h[r].entries ==> !k.Table?
  }

  /** Every table on the current path is higher than `v`, if both have trees. */
  ghost predicate Above(h: Heap, visiting: set<nat>, v: Value) {
    forall a :: a in visiting ==> Higher(h, a, v)
  }

  ghost predicate Higher(h: Heap, a: nat, v: Value) {
    forall t, t' :: Denotes(h, Table(a), t) && Denotes(h, v, t') ==> Height(t') < Height(t)
  }

  lemma VisitingMeansCyclic(h: Heap, visiting: set<nat>, r: nat)
    requires Above(h, visiting, Table(r)) && r in visiting
    ensures !Acyclic(h, Table(r))
  {
    assert Higher(h, r, Table(r));
    assert forall t :: !Denotes(h, Table(r), t);
  }

  lemma ChildHeight(h: Heap, r: nat, k: Value, t: Tree, child: Tree)
    requires r in h && k in h[r].entries && Denotes(h, Table(r), t) && Denotes(h, h[r].entries[k], child)
    ensures Height(child) < Height(t)
  {
    assert k in t.children.Keys;
    TreeIsUnique(h, h[r].entries[k], child, t.children[k]);
  }

  lemma HigherThanChild(h: Heap, a: nat, r: nat, k: Value, t: Tree)
    requires r in h && k in h[r].entries && Denotes(h, Table(r), t)
    requires a == r || Higher(h, a, Table(r))
    ensures Higher(h, a, h[r].entries[k])
  {
    forall ta, child | Denotes(h, Table(a), ta) && Denotes(h, h[r].entries[k], child)
      ensures Height(child) < Height(ta)
    {
      ChildHeight(h, r, k, t, child);
      if a == r {
        ChildHeight(h, r, k, ta, child);
      }
    }
  }

  lemma AboveChild(h: Heap, visiting: set<nat>, r: nat, k: Value)
    requires r in h && k in h[r].entries && Above(h, visiting, Table(r))
    ensures Acyclic(h, Table(r)) ==> Above(h, visiting + {r}, h[r].entries[k])
  {
    if Acyclic(h, Table(r)) {
      var t := TreeOf(h, Table(r));
      forall a | a in visiting + {r} ensures Higher(h, a, h[r].entries[k]) {
        HigherThanChild(h, a, r, k, t);
      }
    }
  }

  /** The entries of a copy under construction: the keys in `done` hold copies. */
  ghost predicate Copied(start: Heap, from: map<Value, Value>, space: Heap, to: map<Value, Value>, done: set<Value>) {
    && done <= from.Keys && to.Keys == done
    && forall k :: k in done ==> SameDenotation(start, from[k], space, to[k])
  }

  ghost predicate SameDenotation(h: Heap, v: Value, h': Heap, v': Value) {
    exists t :: Denotes(h, v, t) && Denotes(h', v', t)
  }

  lemma CopiedInLargerHeap(start: Heap, from: map<Value, Value>, space: Heap, space': Heap, to: map<Value, Value>, done: set<Value>)
    requires Extends(space, space') && Copied(start, from, space, to, done)
    ensures Copied(start, from, space', to, done)
  {
    forall k | k in done ensures SameDenotation(start, from[k], space', to[k]) {
      assert SameDenotation(start, from[k], space, to[k]);
      var t :| Denotes(start, from[k], t) && Denotes(space, to[k], t);
      DenotesInLargerHeap(space, space', to[k], t);
    }
  }

  lemma CopyIsComplete(start: Heap, r: nat, space: Heap, c: nat)
    requires r in start && c in space && start[r].marked == space[c].marked
    requires Copied(start, start[r].entries, space, space[c].entries, start[r].entries.Keys)
    ensures SameDenotation(start, Table(r), space, Table(c))
  {
    var entries := start[r].entries;
    forall k | k in entries ensures Acyclic(start, entries[k]) {
      assert SameDenotation(start, entries[k], space, space[c].entries[k]);
    }
    AcyclicChildren(start, r);
    var t := TreeOf(start, Table(r));
    forall k | k in t.children ensures Denotes(space, space[c].entries[k], t.children[k]) {
      assert k in entries.Keys && SameDenotation(start, entries[k], space, space[c].entries[k]);
      var u :| Denotes(start, entries[k], u) && Denotes(space, space[c].entries[k], u);
      TreeIsUnique(start, entries[k], u, t.children[k]);
    }
    assert space[c].entries.Keys == t.children.Keys;
    assert Denotes(space, Table(c), t);
  }

  /** The tables allocated after `h`. Unlike `json.null`, which is copied as an empty table. */
  ghost function Fresh(h: Heap, h': Heap): Heap {
    map r | r in h' && r !in h :: h'[r]
  }

  lemma FreshUnchanged(before: Heap, h: Heap, c: nat, t: TableData)
    requires c in h && c !in before
    ensures Fresh(before, h[c := t]) - {c} == Fresh(before, h) - {c}
  {
  }

  lemma CopyStep(start: Heap, before: Heap, h: Heap, h': Heap, r: nat, c: nat, done: set<Value>, key: Value, v: Value)
    requires r in start && Extends(before, h) && Extends(h, h') && c in h && c !in before && key in start[r].entries
    requires Copied(start, start[r].entries, Fresh(before, h) - {c}, h[c].entries, done)
    requires SameDenotation(start, start[r].entries[key], Fresh(h, h'), v)
    ensures Copied(start, start[r].entries, Fresh(before, h') - {c}, h[c].entries[key := v], done + {key})
  {
    var space, space' := Fresh(before, h) - {c}, Fresh(before, h') - {c};
    CopiedInLargerHeap(start, start[r].entries, space, space', h[c].entries, done);
    var t :| Denotes(start, start[r].entries[key], t) && Denotes(Fresh(h, h'), v, t);
    DenotesInLargerHeap(Fresh(h, h'), space', v, t);
  }

  class CopyContext {
    const memory: Memory
    const start: Heap       // the heap when the copy began; only these tables are traversed
    var visiting: set<nat>

    constructor (memory: Memory)
      ensures this.memory == memory && this.start == memory.heap && visiting == {}
    {
      this.memory := memory;
      this.start := memory.heap;
      visiting := {};
    }

    ghost predicate Valid()
      reads this, memory
    {
      && memory.Valid() && ScalarKeys(memory.heap)
      && WellFormed(start) && ScalarKeys(start) && Extends(start, memory.heap)
    }

    method Copy(v: Value) returns (result: Result<Value, CopyError>)
      requires Valid() && Proper(start, v)
      modifies this, memory
      ensures Valid() && Extends(old(memory.heap), memory.heap)
      ensures result.Ok? ==>
        && visiting == old(visiting)
        && Proper(memory.heap, result.value) && (result.value == Nil ==> v == Nil)
        && SameDenotation(start, v, Fresh(old(memory.heap), memory.heap), result.value)
      ensures result.Err? && Above(start, old(visiting), v) ==> !Acyclic(start, v)
      decreases start.Keys - visiting, 1
    {
      if !v.Table? {
        assert Denotes(start, v, Leaf(v)) && Denotes(Fresh(old(memory.heap), memory.heap), v, Leaf(v));
        return Ok(v);
      }
      if v.ref in visiting {
        if Above(start, visiting, v) {
          VisitingMeansCyclic(start, visiting, v.ref);
        }
        return Err(ContainsCycle);
      }
      result := CopyTable(v.ref);
    }

    method CopyTable(r: nat) returns (result: Result<Value, CopyError>)
      requires Valid() && r in start && r !in visiting
      modifies this, memory
      ensures Valid() && Extends(old(memory.heap), memory.heap)
      ensures result.Ok? ==>
        && visiting == old(visiting)
        && Proper(memory.heap, result.value) && result.value != Nil
        && SameDenotation(start, Table(r), Fresh(old(memory.heap), memory.heap), result.value)
      ensures result.Err? && Above(start, old(visiting), Table(r)) ==> !Acyclic(start, Table(r))
      decreases start.Keys - visiting, 0
    {
      ghost var before := memory.heap;
      visiting := visiting + {r};
      var entries := memory.heap[r].entries;
      var c := memory.CreateTable(memory.heap[r].marked);
      var remaining := entries.Keys;
      ghost var done: set<Value> := {};
      while remaining != {}
        invariant visiting == old(visiting) + {r} && remaining <= entries.Keys && done == entries.Keys - remaining
        invariant Building(before, r, c, done)
        decreases remaining
      {
        var key :| key in remaining;
        var failure := CopyEntry(before, r, c, done, key);
        if failure.Some? {
          return Err(failure.value);
        }
        remaining := remaining - {key};
        done := done + {key};
      }
      assert done == entries.Keys;
      CopiedInLargerHeap(start, entries, Fresh(before, memory.heap) - {c}, Fresh(before, memory.heap), memory.heap[c].entries, done);
      CopyIsComplete(start, r, Fresh(before, memory.heap), c);
      visiting := visiting - {r};
      result := Ok(Table(c));
    }

    /** Table `c`, created after `before`, holds copies of the entries of `r` at `done`. */
    ghost predicate Building(before: Heap, r: nat, c: nat, done: set<Value>)
      reads this, memory
    {
      && Valid() && Extends(before, memory.heap) && r in start
      && c in memory.heap && c !in before && c != NULL && memory.heap[c].marked == start[r].marked
      && Copied(start, start[r].entries, Fresh(before, memory.heap) - {c}, memory.heap[c].entries, done)
    }

    method CopyEntry(ghost before: Heap, r: nat, c: nat, ghost done: set<Value>, key: Value) returns (failure: Option<CopyError>)
      requires Building(before, r, c, done) && r in visiting && key in start[r].entries && Extends(start, before)
      modifies this, memory
      ensures Valid() && Extends(before, memory.heap)
      ensures failure.None? ==> visiting == old(visiting) && Building(before, r, c, done + {key})
      ensures failure.Some? && Above(start, old(visiting) - {r}, Table(r)) ==> !Acyclic(start, Table(r))
      decreases start.Keys - visiting, 2
    {
      ghost var h := memory.heap;
      EntryIsProper(start, r, key);
      if Above(start, visiting - {r}, Table(r)) {
        AboveChild(start, visiting - {r}, r, key);
        assert visiting - {r} + {r} == visiting;
      }
      var child := Copy(start[r].entries[key]);
      if child.Err? {
        if Acyclic(start, Table(r)) {
          AcyclicBelow(start, r, key);
        }
        return Some(child.error);
      }
      ghost var h' := memory.heap;
      CopyStep(start, before, h, h', r, c, done, key, child.value);
      memory.RawSet(c, key, child.value);
      FreshUnchanged(before, h', c, memory.heap[c]);
      failure := None;
    }
  }

  /** A copy succeeds exactly on acyclic values; it is the same tree in tables that
      did not exist before, and no existing table changes. */
  method CopyValue(memory: Memory, v: Value) returns (result: Result<Value, CopyError>)
    requires memory.Valid() && ScalarKeys(memory.heap) && Proper(memory.heap, v)
    modifies memory
    ensures memory.Valid() && ScalarKeys(memory.heap) && Extends(old(memory.heap), memory.heap)
    ensures result.Ok? <==> Acyclic(old(memory.heap), v)
    ensures result.Ok? ==>
      && Proper(memory.heap, result.value) && (result.value == Nil ==> v == Nil)
      && Denotes(Fresh(old(memory.heap), memory.heap), result.value, TreeOf(old(memory.heap), v))
  {
    var context := new CopyContext(memory);
    ghost var h := memory.heap;
    result := context.Copy(v);
    if result.Ok? {
      var space := Fresh(h, memory.heap);
      assert SameDenotation(h, v, space, result.value);
      ghost var t :| Denotes(h, v, t) && Denotes(space, result.value, t);
      TreeIsUnique(h, v, t, TreeOf(h, v));
    }
  }
}
