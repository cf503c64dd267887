/** `validate_value`: the depth-first check that a configuration is plain, acyclic data.

    A table is white, grey (being visited: on the current path) or black (validated). */
module ConfigValidate {
  import opened LuaHeap

  datatype Refusal = NotSerializable | HasMetatable | Circular | UnsupportedKey

  // ---- what the check is for ------------------------------------------------

  predicate PlainKey(k: Value) {
    k.String? || k.Integer? || k.Number?
  }

  lemma PlainKeyMeaning(k: Value)
    ensures PlainKey(k) <==> !(k.Nil? || k.Boolean? || k.Other? || k.Table?)
  {
  }

  /** A table without a metatable, keyed by strings or numbers, with no function,
      thread or userdata among its values. */
  ghost predicate PlainTable(h: Heap, r: nat) {
    && r in h && !h[r].metatable
    && forall k :: k in h[r].entries ==> PlainKey(k) && !h[r].entries[k].Other?
  }

  ghost predicate NoRepeats(path: seq<nat>) {
    forall i, k :: 0 <= i < k < |path| ==> path[i] != path[k]
  }

  /** Every table reachable from `v` is plain, and no path from `v` meets a table twice. */
  ghost predicate Acceptable(h: Heap, v: Value) {
    && !v.Other?
    && (v.Table? ==> forall path :: Path(h, path) && path[0] == v.ref ==>
          PlainTable(h, path[|path| - 1]) && NoRepeats(path))
  }

  // ---- the order in which tables turn black ------------------------------------

  /** Each finished table is plain and all its children finished before it: the
      validated tables are a closed, acyclic subgraph. */
  ghost predicate Finished(h: Heap, finished: seq<nat>) {
    forall i :: 0 <= i < |finished| ==> FinishedAt(h, finished, i)
  }

  ghost predicate FinishedAt(h: Heap, finished: seq<nat>, i: nat)
    requires i < |finished|
  {
    PlainTable(h, finished[i]) && forall c :: Edge(h, finished[i], c) ==> c in finished[..i]
  }

  function Rank(finished: seq<nat>, r: nat): (i: nat)
    requires r in finished
    ensures i < |finished| && finished[i] == r
    ensures forall m :: 0 <= m < i ==> finished[m] != r
  {
    if finished[0] == r then 0
    else
      assert finished == [finished[0]] + finished[1..];
      1 + Rank(finished[1..], r)
  }

  lemma EdgeLowersRank(h: Heap, finished: seq<nat>, a: nat, b: nat)
    requires Finished(h, finished) && a in finished && Edge(h, a, b)
    ensures b in finished && Rank(finished, b) < Rank(finished, a)
  {
    var i := Rank(finished, a);
    assert FinishedAt(h, finished, i);
    assert b in finished[..i];
    var m :| 0 <= m < i && finished[..i][m] == b;
    assert finished[m] == b;
  }

  lemma {:induction false} PathLowersRank(h: Heap, finished: seq<nat>, path: seq<nat>, i: nat, k: nat)
    requires Finished(h, finished) && Path(h, path) && path[0] in finished && i <= k < |path|
    ensures path[i] in finished && path[k] in finished
    ensures Rank(finished, path[k]) + (k - i) <= Rank(finished, path[i])
    decreases k
  {
    if k == 0 {
    } else {
      PathLowersRank(h, finished, path, if i < k then i else k - 1, k - 1);
      EdgeLowersRank(h, finished, path[k - 1], path[k]);
    }
  }

  /** Whatever has turned black is acceptable: the finishing order proves acyclicity. */
  lemma FinishedIsAcceptable(h: Heap, finished: seq<nat>, r: nat)
    requires Finished(h, finished) && r in finished
    ensures Acceptable(h, Table(r))
  {
    forall path | Path(h, path) && path[0] == r
      ensures PlainTable(h, path[|path| - 1]) && NoRepeats(path)
    {
      var last := |path| - 1;
      PathLowersRank(h, finished, path, 0, last);
      assert FinishedAt(h, finished, Rank(finished, path[last]));
      forall i, k | 0 <= i < k < |path| ensures path[i] != path[k] {
        PathLowersRank(h, finished, path, i, k);
      }
    }
  }

  // ---- the traversal -------------------------------------------------------------

  /** A path that shows why `v`, met at the end of `stack`, had to be refused. */
  ghost predicate Witness(h: Heap, stack: seq<nat>, v: Value, bad: seq<nat>) {
    if stack == [] && v.Other? then true
    else if stack == [] then v.Table? && Refutes(h, v.ref, bad)
    else Refutes(h, stack[0], bad)
  }

  ghost predicate Refutes(h: Heap, root: nat, bad: seq<nat>) {
    Path(h, bad) && bad[0] == root && (!PlainTable(h, bad[|bad| - 1]) || !NoRepeats(bad))
  }

  /** `stack` is the path of grey tables from the root to the parent of `v`. */
  ghost predicate Stack(h: Heap, visiting: set<nat>, stack: seq<nat>, v: Value) {
    && visiting == (set r | r in stack)
    && (stack != [] ==> Path(h, stack) && Child(h, stack[|stack| - 1], v))
  }

  ghost predicate Child(h: Heap, r: nat, v: Value) {
    r in h && exists k :: k in h[r].entries && h[r].entries[k] == v
  }

  lemma ChildOfTable(h: Heap, r: nat, k: Value)
    requires r in h && k in h[r].entries
    ensures Child(h, r, h[r].entries[k])
  {
  }

  lemma PathGrows(h: Heap, stack: seq<nat>, r: nat)
    requires WellFormed(h) && r in h
    requires stack != [] ==> Path(h, stack) && Child(h, stack[|stack| - 1], Table(r))
    ensures Path(h, stack + [r])
  {
    if stack != [] {
      var parent := stack[|stack| - 1];
      var k :| k in h[parent].entries && h[parent].entries[k] == Table(r);
      assert Edge(h, parent, r);
    }
  }

  /** Meeting a grey table closes a cycle. */
  lemma GreyMeansRepeat(h: Heap, stack: seq<nat>, r: nat)
    requires r in stack
    ensures !NoRepeats(stack + [r])
  {
    var i :| 0 <= i < |stack| && stack[i] == r;
    assert (stack + [r])[i] == (stack + [r])[|stack|];
  }

  class Validator {
    const heap: Heap
    var visiting: set<nat>
    var validated: set<nat>
    ghost var finished: seq<nat>    // the validated tables, in the order they were finished

    constructor (heap: Heap)
      requires WellFormed(heap)
      ensures this.heap == heap && visiting == {} && validated == {} && Valid()
    {
      this.heap := heap;
      visiting, validated, finished := {}, {}, [];
    }

    ghost predicate Valid()
      reads this
    {
      && WellFormed(heap)
      && validated == (set r | r in finished)
      && visiting !! validated
      && Finished(heap, finished)
    }

    method ValidateValue(v: Value, ghost stack: seq<nat>) returns (refusal: Option<Refusal>, ghost bad: seq<nat>)
      requires Valid() && Proper(heap, v) && Stack(heap, visiting, stack, v)
      modifies this
      ensures refusal.None? ==> Valid() && visiting == old(visiting) && old(validated) <= validated
      ensures refusal.None? ==> !v.Other? && (v.Table? ==> v.ref in validated)
      ensures refusal.Some? ==> Witness(heap, stack, v, bad)
      decreases heap.Keys - visiting - validated
    {
      bad := [];
      match v {
        case Nil => return None, [];
        case Boolean(_) => return None, [];
        case Integer(_) => return None, [];
        case Number(_) => return None, [];
        case String(_) => return None, [];
        case Other(_) => return Some(NotSerializable), stack;
        case Table(r) => refusal, bad := ValidateTable(r, stack);
      }
    }

    method ValidateTable(r: nat, ghost stack: seq<nat>) returns (refusal: Option<Refusal>, ghost bad: seq<nat>)
      requires Valid() && r in heap && Stack(heap, visiting, stack, Table(r))
      modifies this
      ensures refusal.None? ==> Valid() && visiting == old(visiting) && old(validated) <= validated && r in validated
      ensures refusal.Some? ==> Witness(heap, stack, Table(r), bad)
      decreases heap.Keys - visiting - validated, 0
    {
      ghost var path := stack + [r];
      PathGrows(heap, stack, r);
      bad := path;
      if heap[r].metatable {
        return Some(HasMetatable), path;
      }
      if r in visiting {
        GreyMeansRepeat(heap, stack, r);
        return Some(Circular), path;
      }
      if r in validated {
        return None, [];
      }
      ghost var white := heap.Keys - visiting - validated;
      visiting := visiting + {r};
      var remaining := heap[r].entries.Keys;
      while remaining != {}
        invariant Valid() && visiting == old(visiting) + {r} && old(validated) <= validated
        invariant remaining <= heap[r].entries.Keys
        invariant forall k :: k in heap[r].entries.Keys - remaining ==> Checked(heap[r].entries, k)
        decreases remaining
      {
        var key :| key in remaining;
        remaining := remaining - {key};
        var child := heap[r].entries[key];
        if !PlainKey(key) {
          return Some(UnsupportedKey), path;
        }
        EntryIsProper(heap, r, key);
        ChildOfTable(heap, r, key);
        assert heap.Keys - visiting - validated <= white - {r} && r in white;
        ghost var seen := heap[r].entries.Keys - remaining - {key};
        assert forall k :: k in seen ==> Checked(heap[r].entries, k);
        refusal, bad := ValidateValue(child, path);
        if refusal.Some? {
          return;
        }
        assert forall k :: k in seen ==> Checked(heap[r].entries, k);
        assert heap[r].entries.Keys - remaining == seen + {key};
      }
      assert forall k :: k in heap[r].entries ==> Checked(heap[r].entries, k);
      FinishOne(heap, finished, r);
      visiting := visiting - {r};
      validated := validated + {r};
      finished := finished + [r];
      refusal := None;
    }

    predicate Checked(entries: map<Value, Value>, k: Value)
      requires k in entries
      reads this
    {
      PlainKey(k) && !entries[k].Other? && (entries[k].Table? ==> entries[k].ref in validated)
    }

    /** The whole check accepts exactly the acceptable configurations. */
    method Validate(v: Value) returns (accepted: bool)
      requires Valid() && visiting == {} && Proper(heap, v)
      modifies this
      ensures accepted <==> Acceptable(heap, v)
    {
      ghost var bad;
      var refusal;
      refusal, bad := ValidateValue(v, []);
      accepted := refusal.None?;
      if accepted && v.Table? {
        FinishedIsAcceptable(heap, finished, v.ref);
      }
    }
  }

  lemma FinishOne(h: Heap, finished: seq<nat>, r: nat)
    requires Finished(h, finished) && r in h && !h[r].metatable
    requires forall k :: k in h[r].entries ==>
      PlainKey(k) && !h[r].entries[k].Other? && (h[r].entries[k].Table? ==> h[r].entries[k].ref in finished)
    ensures Finished(h, finished + [r])
  {
    var after := finished + [r];
    forall i | 0 <= i < |after| ensures FinishedAt(h, after, i) {
      assert after[..i] == finished[..i];
      if i < |finished| {
        assert FinishedAt(h, finished, i);
      } else {
        assert after[..i] == finished;
      }
    }
  }
}
