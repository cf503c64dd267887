/** Which error the encoder reports. */
module JsonErrors {
  import opened LuaHeap
  import opened JsonTree
  import opened JsonEncode

  /** Errors of values that are no tables; `json.null` is never an error. */
  lemma LeafErrors(h: Heap, v: Value, depth: nat, visiting: set<nat>)
    requires WellFormed(h) && Proper(h, v) && depth <= 256 && (v.Table? ==> v.ref == NULL)
    ensures Encode(h, v, depth, visiting) == Err(UnsupportedType) <==> v.Other?
    ensures Encode(h, v, depth, visiting) == Err(NonFiniteNumber) <==> v.Number? && !v.f.Finite?
    ensures Encode(h, v, depth, visiting).Ok? <==> !v.Other? && (v.Number? ==> v.f.Finite?)
  {
  }

  /** Errors of a table itself. The limit of 256 levels is checked before cycles, and the shape of
      the table before its keys. */
  lemma TableErrors(h: Heap, r: nat, depth: nat, visiting: set<nat>)
    requires WellFormed(h) && r in h && r != NULL && depth <= 256
    ensures depth == 256 ==> Encode(h, Table(r), depth, visiting) == Err(NestingTooDeep)
    ensures depth < 256 && r in visiting ==> Encode(h, Table(r), depth, visiting) == Err(CircularTable)
    ensures depth < 256 && r !in visiting && Sparse(h[r]) && h[r].marked ==>
      Encode(h, Table(r), depth, visiting) == Err(SparseArray)
    ensures depth < 256 && r !in visiting && Sparse(h[r]) && !h[r].marked && !StringKeys(h[r].entries) ==>
      Encode(h, Table(r), depth, visiting) == Err(NonStringKey)
  {
  }

  /** The keys are 1..n for no n. */
  ghost predicate Sparse(t: TableData) {
    forall n: nat :: !DenseUpTo(t.entries, n)
  }

  /** Items are encoded in order, one level deeper, and the first error is the error of the array. */
  lemma {:induction false} FirstItemError(h: Heap, r: nat, count: nat, n: nat, depth: nat, visiting: set<nat>, e: EncodeError)
    requires WellFormed(h) && r in h && depth < 256 && count <= n && DenseUpTo(h[r].entries, n)
    ensures EncodeItems(h, r, count, n, depth, visiting) == Err(e) <==>
      exists i :: 0 <= i < count && ItemFails(h, r, i, n, depth, visiting, e)
  {
    if count == 0 {
    } else {
      FirstItemError(h, r, count - 1, n, depth, visiting, e);
      ItemsAllEncode(h, r, count - 1, n, depth, visiting);
      assert Integer(count) in h[r].entries;
      if EncodeItems(h, r, count, n, depth, visiting) == Err(e) && EncodeItems(h, r, count - 1, n, depth, visiting).Ok? {
        assert ItemFails(h, r, count - 1, n, depth, visiting, e);
      }
    }
  }

  ghost function ItemOutcome(h: Heap, r: nat, i: nat, n: nat, depth: nat, visiting: set<nat>): Result<Json, EncodeError>
    requires WellFormed(h) && r in h && depth < 256 && i < n && DenseUpTo(h[r].entries, n)
  {
    assert Integer(i + 1) in h[r].entries;
    Encode(h, h[r].entries[Integer(i + 1)], depth + 1, visiting)
  }

  ghost predicate ItemFails(h: Heap, r: nat, i: nat, n: nat, depth: nat, visiting: set<nat>, e: EncodeError)
    requires WellFormed(h) && r in h && depth < 256 && i < n && DenseUpTo(h[r].entries, n)
  {
    true == (
      && ItemOutcome(h, r, i, n, depth, visiting) == Err(e)
      && forall k :: 0 <= k < i ==> ItemOutcome(h, r, k, n, depth, visiting).Ok?)
  }

  lemma {:induction false} ItemsAllEncode(h: Heap, r: nat, count: nat, n: nat, depth: nat, visiting: set<nat>)
    requires WellFormed(h) && r in h && depth < 256 && count <= n && DenseUpTo(h[r].entries, n)
    ensures EncodeItems(h, r, count, n, depth, visiting).Ok? <==>
      forall k :: 0 <= k < count ==> ItemOutcome(h, r, k, n, depth, visiting).Ok?
  {
    if count == 0 {
    } else {
      ItemsAllEncode(h, r, count - 1, n, depth, visiting);
      assert EncodeItems(h, r, count, n, depth, visiting).Ok? <==>
        EncodeItems(h, r, count - 1, n, depth, visiting).Ok? && ItemOutcome(h, r, count - 1, n, depth, visiting).Ok?;
    }
  }

  /** Members in ascending key order, likewise. */
  lemma {:induction false} FirstMemberError(h: Heap, r: nat, keys: seq<string>, count: nat, depth: nat, visiting: set<nat>, e: EncodeError)
    requires WellFormed(h) && r in h && depth < 256 && count <= |keys|
    requires forall k :: k in keys ==> String(k) in h[r].entries
    ensures EncodeMembers(h, r, keys, count, depth, visiting) == Err(e) <==>
      exists i :: 0 <= i < count && MemberFails(h, r, keys, i, depth, visiting, e)
  {
    if count == 0 {
    } else {
      FirstMemberError(h, r, keys, count - 1, depth, visiting, e);
      MembersAllEncode(h, r, keys, count - 1, depth, visiting);
      assert keys[count - 1] in keys;
      if EncodeMembers(h, r, keys, count, depth, visiting) == Err(e) && EncodeMembers(h, r, keys, count - 1, depth, visiting).Ok? {
        assert MemberFails(h, r, keys, count - 1, depth, visiting, e);
      }
    }
  }

  ghost function MemberOutcome(h: Heap, r: nat, keys: seq<string>, i: nat, depth: nat, visiting: set<nat>): Result<Json, EncodeError>
    requires WellFormed(h) && r in h && depth < 256 && i < |keys| && forall k :: k in keys ==> String(k) in h[r].entries
  {
    assert keys[i] in keys;
    Encode(h, h[r].entries[String(keys[i])], depth + 1, visiting)
  }

  ghost predicate MemberFails(h: Heap, r: nat, keys: seq<string>, i: nat, depth: nat, visiting: set<nat>, e: EncodeError)
    requires WellFormed(h) && r in h && depth < 256 && i < |keys| && forall k :: k in keys ==> String(k) in h[r].entries
  {
    true == (
      && MemberOutcome(h, r, keys, i, depth, visiting) == Err(e)
      && forall k :: 0 <= k < i ==> MemberOutcome(h, r, keys, k, depth, visiting).Ok?)
  }

  lemma {:induction false} MembersAllEncode(h: Heap, r: nat, keys: seq<string>, count: nat, depth: nat, visiting: set<nat>)
    requires WellFormed(h) && r in h && depth < 256 && count <= |keys|
    requires forall k :: k in keys ==> String(k) in h[r].entries
    ensures EncodeMembers(h, r, keys, count, depth, visiting).Ok? <==>
      forall k :: 0 <= k < count ==> MemberOutcome(h, r, keys, k, depth, visiting).Ok?
  {
    if count == 0 {
    } else {
      MembersAllEncode(h, r, keys, count - 1, depth, visiting);
      assert EncodeMembers(h, r, keys, count, depth, visiting).Ok? <==>
        EncodeMembers(h, r, keys, count - 1, depth, visiting).Ok? && MemberOutcome(h, r, keys, count - 1, depth, visiting).Ok?;
    }
  }

  /** The error of an array is that of its first failing item. */
  lemma ArrayError(h: Heap, r: nat, n: nat, depth: nat, visiting: set<nat>, e: EncodeError)
    requires WellFormed(h) && r in h && r != NULL && depth < 256 && r !in visiting
    requires DenseUpTo(h[r].entries, n) && (h[r].marked || n > 0)
    ensures Encode(h, Table(r), depth, visiting) == Err(e) <==>
      exists i :: 0 <= i < n && ItemFails(h, r, i, n, depth, visiting + {r}, e)
  {
    DenseLengthIsUnique(h[r].entries, n);
    FirstItemError(h, r, n, n, depth, visiting + {r}, e);
  }

  /** The error of an object with string keys is that of its first failing member, in key order. */
  lemma ObjectError(h: Heap, r: nat, depth: nat, visiting: set<nat>, e: EncodeError)
    requires WellFormed(h) && r in h && r != NULL && depth < 256 && r !in visiting
    requires !h[r].marked && StringKeys(h[r].entries)
    ensures
      var keys := AscendingKeys(h[r].entries);
      Encode(h, Table(r), depth, visiting) == Err(e) <==>
        exists i :: 0 <= i < |keys| && MemberFails(h, r, keys, i, depth, visiting + {r}, e)
  {
    var keys := AscendingKeys(h[r].entries);
    FirstMemberError(h, r, keys, |keys|, depth, visiting + {r}, e);
    ObjectContents(h, r, depth, visiting + {r}, e);
  }

  lemma ObjectContents(h: Heap, r: nat, depth: nat, visiting: set<nat>, e: EncodeError)
    requires WellFormed(h) && r in h && depth < 256 && !h[r].marked && StringKeys(h[r].entries)
    ensures
      var keys := AscendingKeys(h[r].entries);
      EncodeContents(h, r, depth, visiting) == Err(e) <==> EncodeMembers(h, r, keys, |keys|, depth, visiting) == Err(e)
  {
    assert forall n: nat :: DenseUpTo(h[r].entries, n) && n > 0 ==> Integer(1) in h[r].entries;
    assert ShapeOf(h[r]) == Ok(ObjectShape(|h[r].entries|));
  }
}
