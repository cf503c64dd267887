/** `equal`: deep comparison with an optimistic memo of the pairs met so far. */
module StateEqual {
  import opened LuaHeap
  import opened LuaMemory
  import opened StateTree

  lemma RelatedBelow(h: Heap, rel: set<(nat, nat)>, a: nat, b: nat, k: Value)
    requires a in h && b in h && a != b && k in h[a].entries
    requires Bisimulation(h, rel) && Related(rel, Table(a), Table(b))
    ensures Bisimilar(h, Field(h, a, k), Field(h, b, k))
  {
    assert Matched(h, rel, a, b);
    assert Related(rel, Field(h, a, k), Field(h, b, k));
  }

  /** A difference at one key tells the two tables apart. */
  lemma ChildDistinguishes(h: Heap, a: nat, b: nat, k: Value)
    requires a in h && b in h && a != b && k in h[a].entries
    requires !Bisimilar(h, Field(h, a, k), Field(h, b, k))
    ensures !Bisimilar(h, Table(a), Table(b))
  {
    if Bisimilar(h, Table(a), Table(b)) {
      var rel :| Bisimulation(h, rel) && Related(rel, Table(a), Table(b));
      RelatedBelow(h, rel, a, b, k);
    }
  }

  /** So does a mark or a key that only one of them has. */
  lemma ShapeDistinguishes(h: Heap, a: nat, b: nat)
    requires a in h && b in h && a != b
    requires h[a].marked != h[b].marked || exists k :: k in h[b].entries && k !in h[a].entries
    ensures !Bisimilar(h, Table(a), Table(b))
  {
    forall rel | Bisimulation(h, rel) ensures !Related(rel, Table(a), Table(b)) {
      assert (a, b) in rel ==> Matched(h, rel, a, b);
    }
  }

  ghost function Pairs(h: Heap): set<(nat, nat)> {
    set a, b | a in h && b in h :: (a, b)
  }

  class Comparison {
    const heap: Heap
    var compared: set<(nat, nat)>

    constructor (heap: Heap)
      ensures this.heap == heap && compared == {}
    {
      this.heap := heap;
      compared := {};
    }

    /** The pairs added since `before` are matched up to all pairs met so far. */
    ghost predicate Justified(before: set<(nat, nat)>)
      reads this
    {
      && before <= compared
      && forall a, b :: (a, b) in compared && (a, b) !in before ==> Matched(heap, compared, a, b)
    }

    method Equal(left: Value, right: Value) returns (same: bool)
      requires WellFormed(heap) && Proper(heap, left) && Proper(heap, right)
      modifies this
      ensures old(compared) <= compared
      ensures same ==> Related(compared, left, right) && Justified(old(compared))
      ensures !same ==> !Bisimilar(heap, left, right)
      decreases Pairs(heap) - compared
    {
      if RawEqual(left, right) {
        return true;
      }
      if !left.Table? || !right.Table? {
        return false;
      }
      var a, b := left.ref, right.ref;
      if heap[a].marked != heap[b].marked {
        ShapeDistinguishes(heap, a, b);
        return false;
      }
      if (a, b) in compared {
        return true;
      }
      ghost var open := compared;
      compared := compared + {(a, b)};
      same := EqualContents(a, b, open);
    }

    method EqualContents(a: nat, b: nat, ghost open: set<(nat, nat)>) returns (same: bool)
      requires WellFormed(heap) && a in heap && b in heap && a != b && heap[a].marked == heap[b].marked
      requires (a, b) !in open && compared == open + {(a, b)}
      modifies this
      ensures open + {(a, b)} <= compared
      ensures same ==> Justified(open)
      ensures !same ==> !Bisimilar(heap, Table(a), Table(b))
      decreases Pairs(heap) - open, 0
    {
      ghost var start := compared;
      var remaining := heap[a].entries.Keys;
      while remaining != {}
        invariant start <= compared && Justified(start) && remaining <= heap[a].entries.Keys
        invariant forall k :: k in heap[a].entries.Keys - remaining ==> Related(compared, Field(heap, a, k), Field(heap, b, k))
        decreases remaining
      {
        var key :| key in remaining;
        ghost var before := compared;
        assert Pairs(heap) - compared < Pairs(heap) - open by {
          assert (a, b) in Pairs(heap) - open;
        }
        EntryIsProper(heap, a, key);
        FieldIsProper(heap, b, key);
        same := Equal(Field(heap, a, key), Field(heap, b, key));
        if !same {
          ChildDistinguishes(heap, a, b, key);
          return;
        }
        JustifiedTwice(heap, start, before, compared);
        remaining := remaining - {key};
      }
      var others := heap[b].entries.Keys;
      while others != {}
        invariant others <= heap[b].entries.Keys
        invariant forall k :: k in heap[b].entries.Keys - others ==> k in heap[a].entries
        decreases others
      {
        var key :| key in others;
        if key !in heap[a].entries {
          ShapeDistinguishes(heap, a, b);
          return false;
        }
        others := others - {key};
      }
      same := true;
      assert Matched(heap, compared, a, b);
    }

    /** The comparison as `merge` calls it, with an empty memo: it decides bisimilarity
        on every heap, cyclic or not. */
    method Compare(left: Value, right: Value) returns (same: bool)
      requires WellFormed(heap) && Proper(heap, left) && Proper(heap, right) && compared == {}
      modifies this
      ensures same <==> Bisimilar(heap, left, right)
    {
      same := Equal(left, right);
      if same {
        assert Bisimulation(heap, compared);
      }
    }
  }

  lemma FieldIsProper(h: Heap, r: nat, k: Value)
    requires WellFormed(h) && r in h
    ensures Proper(h, Field(h, r, k))
  {
    if k in h[r].entries {
      EntryIsProper(h, r, k);
    }
  }

  lemma JustifiedTwice(h: Heap, start: set<(nat, nat)>, before: set<(nat, nat)>, after: set<(nat, nat)>)
    requires start <= before <= after
    requires forall a, b :: (a, b) in before && (a, b) !in start ==> Matched(h, before, a, b)
    requires forall a, b :: (a, b) in after && (a, b) !in before ==> Matched(h, after, a, b)
    ensures forall a, b :: (a, b) in after && (a, b) !in start ==> Matched(h, after, a, b)
  {
    forall a, b | (a, b) in after && (a, b) !in start ensures Matched(h, after, a, b) {
      if (a, b) in before {
        MatchedMonotone(h, before, after, a, b);
      }
    }
  }

  /** `json.null` is a table like any other here: it equals exactly the empty tables
      that are not marked as arrays. */
  lemma NullEqualsEmptyTables(h: Heap, r: nat)
    requires WellFormed(h) && r in h
    ensures Bisimilar(h, Table(NULL), Table(r)) <==> h[r].entries == map[] && !h[r].marked
  {
    if Bisimilar(h, Table(NULL), Table(r)) && r != NULL {
      var rel :| Bisimulation(h, rel) && Related(rel, Table(NULL), Table(r));
      assert Matched(h, rel, NULL, r);
      SameKeys(h, rel, NULL, r);
    }
    if h[r].entries == map[] && !h[r].marked {
      var rel := {(NULL, r)};
      assert Matched(h, rel, NULL, r);
      assert Bisimulation(h, rel) && Related(rel, Table(NULL), Table(r));
    }
  }

  // ---- deep structural equality --------------------------------------------------

  /** What `equal` decides on acyclic values, exactly: their trees are the same if and
      only if it says so and the tree holds no NaN. */
  lemma SameTreeIff(h: Heap, v: Value, v': Value, t: Tree, t': Tree)
    requires WellFormed(h) && Denotes(h, v, t) && Denotes(h, v', t')
    ensures SameTree(t, t') <==> Bisimilar(h, v, v') && NaNFree(t)
  {
    if Bisimilar(h, v, v') && NaNFree(t) {
      var rel :| Bisimulation(h, rel) && Related(rel, v, v');
      BisimilarTreesAreSame(h, rel, v, v', t, t');
    }
    if SameTree(t, t') {
      SameTreesAreBisimilar(h, v, v', t, t');
      SameTreesAreNaNFree(t, t');
    }
  }

  /** So on the values of two parts of the heap that share no table with a NaN below it,
      in particular on disjoint parts, it decides equality of the trees. */
  lemma BisimilarIsSameTree(h: Heap, h1: Heap, h2: Heap, v: Value, v': Value, t: Tree, t': Tree)
    requires WellFormed(h) && Extends(h1, h) && Extends(h2, h) && SharedNaNFree(h, h1, h2)
    requires Denotes(h1, v, t) && Denotes(h2, v', t')
    ensures Bisimilar(h, v, v') <==> SameTree(t, t')
  {
    DenotesInLargerHeap(h1, h, v, t);
    DenotesInLargerHeap(h2, h, v', t');
    SameTreeIff(h, v, v', t, t');
    if Bisimilar(h, v, v') {
      var rel :| Bisimulation(h, rel) && Related(rel, v, v');
      BisimilarApartIsNaNFree(h, h1, h2, rel, v, v', t, t');
    }
  }

  /** The exception is real: a table holding NaN equals itself by identity, while it
      is not structurally equal to anything. */
  lemma IdentityHidesNaN(h: Heap)
    requires 1 in h && h[1] == TableData(map[String("x") := Number(NaN)], false, false)
    ensures Bisimilar(h, Table(1), Table(1))
    ensures var t := Node(false, map[String("x") := Leaf(Number(NaN))]);
            Denotes(h, Table(1), t) && !SameTree(t, t)
  {
    assert Bisimulation(h, {}) && Related({}, Table(1), Table(1));
    var t := Node(false, map[String("x") := Leaf(Number(NaN))]);
    SameAsItself(t);
    assert !NaNFree(t.children[String("x")]);
  }
}
