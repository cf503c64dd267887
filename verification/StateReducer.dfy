/** `merge` on trees: what one patch does to the fields of a domain, and what any
    run of patches does to the revision. */
module StateReducer {
  import opened LuaHeap
  import opened StateTree

  type Fields = map<Value, Tree>

  /** A patch field is a tree, or nothing when its value contains a cycle. */
  type Patch = map<Value, Option<Tree>>

  datatype Outcome = Outcome(fields: Fields, changed: bool, ok: bool)

  ghost predicate Holds(fields: Fields, k: Value, t: Tree) {
    k in fields && SameTree(fields[k], t)
  }

  /** The fields of the patch applied one by one, in some order of `pairs`; a cyclic
      field raises an error and leaves the fields written before it in place. */
  ghost function MergeInOrder(fields: Fields, patch: Patch, order: seq<Value>): Outcome
    requires forall k :: k in order ==> k in patch
  {
    if order == [] then Outcome(fields, false, true)
    else MergeOne(MergeInOrder(fields, patch, order[..|order| - 1]), patch, order[|order| - 1])
  }

  ghost function MergeOne(before: Outcome, patch: Patch, k: Value): Outcome
    requires k in patch
  {
    if !before.ok then before
    else
      match patch[k]
      case None => before.(ok := false)
      case Some(t) => if Holds(before.fields, k, t) then before else Outcome(before.fields[k := t], true, true)
  }

  lemma MergeAppend(fields: Fields, patch: Patch, order: seq<Value>, k: Value)
    requires (forall x :: x in order ==> x in patch) && k in patch
    ensures forall x :: x in order + [k] ==> x in patch
    ensures MergeInOrder(fields, patch, order + [k]) == MergeOne(MergeInOrder(fields, patch, order), patch, k)
  {
    assert (order + [k])[..|order|] == order;
  }

  ghost predicate IsOrder(order: seq<Value>, keys: set<Value>) {
    && (forall i, k :: 0 <= i < k < |order| ==> order[i] != order[k])
    && (forall k :: k in order <==> k in keys)
  }

  ghost predicate AllAcyclic(patch: Patch) {
    forall k :: k in patch ==> patch[k].Some?
  }

  // ---- one merge -----------------------------------------------------------

  /** The patch overrides the domain field by field; a field that is already the
      same keeps its present value. */
  ghost function Override(fields: Fields, patch: Patch): Fields
    requires AllAcyclic(patch)
  {
    map k | k in fields.Keys + patch.Keys ::
      if k in patch && !Holds(fields, k, patch[k].value) then patch[k].value else fields[k]
  }

  ghost predicate Changes(fields: Fields, patch: Patch)
    requires AllAcyclic(patch)
  {
    exists k :: k in patch && !Holds(fields, k, patch[k].value)
  }

  /** The keys in `done` are merged, the others are as they were. */
  ghost predicate MergedSoFar(fields: Fields, patch: Patch, done: seq<Value>, o: Outcome)
    requires AllAcyclic(patch)
  {
    true == (
      && o.ok && (forall k :: k in done ==> k in patch)
      && (forall k :: k !in done ==> (k in o.fields <==> k in fields) && (k in fields ==> o.fields[k] == fields[k]))
      && (forall k :: k in done ==>
            k in o.fields && o.fields[k] == (if Holds(fields, k, patch[k].value) then fields[k] else patch[k].value))
      && (o.changed <==> exists k :: k in done && !Holds(fields, k, patch[k].value)))
  }

  lemma MergedStep(fields: Fields, patch: Patch, done: seq<Value>, k: Value, o: Outcome)
    requires AllAcyclic(patch) && k in patch && k !in done && MergedSoFar(fields, patch, done, o)
    ensures MergedSoFar(fields, patch, done + [k], MergeOne(o, patch, k))
  {
    assert forall x :: x in done + [k] <==> x in done || x == k;
  }

  lemma {:induction false} PrefixOutcome(fields: Fields, patch: Patch, order: seq<Value>)
    requires AllAcyclic(patch) && forall k :: k in order ==> k in patch
    requires forall i, k :: 0 <= i < k < |order| ==> order[i] != order[k]
    ensures MergedSoFar(fields, patch, order, MergeInOrder(fields, patch, order))
  {
    if order == [] {
    } else {
      var last := |order| - 1;
      var front := order[..last];
      PrefixOutcome(fields, patch, front);
      assert order == front + [order[last]] && order[last] !in front;
      MergedStep(fields, patch, front, order[last], MergeInOrder(fields, patch, front));
    }
  }

  /** On an acyclic patch the order of traversal does not matter: the result is the
      override, reported as a change exactly when some field is not already the same. */
  lemma MergeIsOverride(fields: Fields, patch: Patch, order: seq<Value>)
    requires AllAcyclic(patch) && IsOrder(order, patch.Keys)
    ensures MergeInOrder(fields, patch, order) == Outcome(Override(fields, patch), Changes(fields, patch), true)
  {
    PrefixOutcome(fields, patch, order);
    var o := MergeInOrder(fields, patch, order);
    assert o.fields.Keys == Override(fields, patch).Keys;
    assert o.fields == Override(fields, patch);
    assert o.changed <==> Changes(fields, patch) by {
      assert forall k :: k in order <==> k in patch.Keys;
    }
  }

  /** After a merge every field of the patch shows, on every path, what the patch shows there: a
      leaf as the same leaf, or the same number in the other representation; the other fields
      are as they were. A change is reported exactly when some field was missing or
      showed something else on some path. */
  ghost predicate ShowsPatch(before: Fields, patch: Patch, after: Fields, changed: bool)
    requires AllAcyclic(patch)
  {
    true == (
      && (forall k :: k !in patch ==> (k in after <==> k in before) && (k in after ==> after[k] == before[k]))
      && (forall k :: k in patch ==> k in after && ShowsTree(patch[k].value, after[k]))
      && (changed <==> exists k :: k in patch && !(k in before && SameEverywhere(before[k], patch[k].value))))
  }

  ghost predicate ShowsTree(t: Tree, stored: Tree) {
    forall path: seq<Value> ::
      match At(t, path)
      case None => At(stored, path) == None
      case Some(Node(marked, _)) => At(stored, path).Some? && At(stored, path).value.Node? && At(stored, path).value.marked == marked
      case Some(Leaf(x)) =>
        At(stored, path).Some? && At(stored, path).value.Leaf?
        && (At(stored, path).value.value == x || SameLeaf(At(stored, path).value.value, x))
  }

  lemma SameTreeShows(t: Tree, stored: Tree)
    requires stored == t || SameTree(stored, t)
    ensures ShowsTree(t, stored)
  {
    if SameTree(stored, t) {
      SameTreeMeaning(stored, t);
      assert forall path: seq<Value> :: SameSight(At(stored, path), At(t, path));
    }
  }

  lemma MergeShowsPatch(fields: Fields, patch: Patch, order: seq<Value>)
    requires AllAcyclic(patch) && IsOrder(order, patch.Keys)
    ensures
      var o := MergeInOrder(fields, patch, order);
      o.ok && ShowsPatch(fields, patch, o.fields, o.changed)
  {
    MergeIsOverride(fields, patch, order);
    OverrideShowsPatch(fields, patch);
  }

  lemma OverrideShowsPatch(fields: Fields, patch: Patch)
    requires AllAcyclic(patch)
    ensures ShowsPatch(fields, patch, Override(fields, patch), Changes(fields, patch))
  {
    var after := Override(fields, patch);
    forall k | k in patch ensures k in after && ShowsTree(patch[k].value, after[k]) {
      SameTreeShows(patch[k].value, after[k]);
    }
    forall k | k in patch
      ensures Holds(fields, k, patch[k].value) <==> k in fields && SameEverywhere(fields[k], patch[k].value)
    {
      if k in fields {
        SameTreeMeaning(fields[k], patch[k].value);
      }
    }
  }

  /** A merge that reports no change leaves every field exactly as it was. */
  lemma UnchangedMeansEqual(fields: Fields, patch: Patch)
    requires AllAcyclic(patch)
    ensures !Changes(fields, patch) ==> Override(fields, patch) == fields
  {
    if !Changes(fields, patch) {
      assert Override(fields, patch).Keys == fields.Keys;
    }
  }

  /** A merge that reports a change leaves some field different from what it was. */
  lemma ChangedMeansDifferent(fields: Fields, patch: Patch)
    requires AllAcyclic(patch)
    ensures Changes(fields, patch) ==>
      exists k :: k in Override(fields, patch) && !Holds(fields, k, Override(fields, patch)[k])
  {
    if Changes(fields, patch) {
      var k :| k in patch && !Holds(fields, k, patch[k].value);
      assert k in Override(fields, patch) && Override(fields, patch)[k] == patch[k].value;
    }
  }

  /** Merging the same patch again changes nothing, exactly when the patch holds no NaN. */
  lemma MergeIsIdempotent(fields: Fields, patch: Patch)
    requires AllAcyclic(patch)
    ensures !Changes(Override(fields, patch), patch) <==> forall k :: k in patch ==> NaNFree(patch[k].value)
  {
    var after := Override(fields, patch);
    forall k | k in patch ensures Holds(after, k, patch[k].value) <==> NaNFree(patch[k].value) {
      if Holds(fields, k, patch[k].value) {
        SameTreesAreNaNFree(fields[k], patch[k].value);
      } else {
        SameAsItself(patch[k].value);
      }
    }
  }

  // ---- a merge that fails ------------------------------------------------------

  ghost predicate Written(fields: Fields, k: Value, field: Option<Tree>) {
    field.Some? && !Holds(fields, k, field.value) && !(k in fields && fields[k] == field.value)
  }

  ghost predicate NothingWritten(fields: Fields, patch: Patch) {
    forall k :: k in patch ==> !Written(fields, k, patch[k])
  }

  lemma {:induction false} NothingWrittenKeepsFields(fields: Fields, patch: Patch, order: seq<Value>)
    requires NothingWritten(fields, patch) && forall k :: k in order ==> k in patch
    ensures MergeInOrder(fields, patch, order).fields == fields
  {
    if order == [] {
    } else {
      var last := |order| - 1;
      assert order[last] in order && forall k :: k in order[..last] ==> k in order;
      NothingWrittenKeepsFields(fields, patch, order[..last]);
      assert !Written(fields, order[last], patch[order[last]]);
    }
  }

  ghost function Enumeration(keys: set<Value>): (order: seq<Value>)
    ensures IsOrder(order, keys)
  {
    if keys == {} then []
    else
      var k :| k in keys;
      Enumeration(keys - {k}) + [k]
  }

  lemma {:induction false} FailureIsFinal(fields: Fields, patch: Patch, order: seq<Value>, n: nat)
    requires (forall k :: k in order ==> k in patch) && n <= |order|
    requires forall k :: k in order[..n] ==> k in patch
    requires !MergeInOrder(fields, patch, order[..n]).ok
    ensures MergeInOrder(fields, patch, order) == MergeInOrder(fields, patch, order[..n])
    decreases |order|
  {
    if n == |order| {
      assert order[..n] == order;
    } else {
      var last := |order| - 1;
      assert order[..last][..n] == order[..n];
      FailureIsFinal(fields, patch, order[..last], n);
    }
  }

  /** A failing merge keeps the revision. Whatever order `pairs` picks, the state then
      also stays what it was, exactly when the patch is acyclic or writes nothing new. */
  lemma UncountedChangeIffCyclic(fields: Fields, patch: Patch)
    ensures (forall order :: IsOrder(order, patch.Keys) ==>
               var o := MergeInOrder(fields, patch, order); o.ok || o.fields == fields)
            <==> AllAcyclic(patch) || NothingWritten(fields, patch)
  {
    if AllAcyclic(patch) || NothingWritten(fields, patch) {
      forall order | IsOrder(order, patch.Keys)
        ensures var o := MergeInOrder(fields, patch, order); o.ok || o.fields == fields
      {
        if AllAcyclic(patch) {
          MergeIsOverride(fields, patch, order);
        } else {
          NothingWrittenKeepsFields(fields, patch, order);
        }
      }
    } else {
      var k :| k in patch && Written(fields, k, patch[k]);
      var c :| c in patch && patch[c].None?;
      var order := [k, c] + Enumeration(patch.Keys - {k, c});
      IsOrderFrom(k, c, patch.Keys);
      WrittenThenFailed(fields, patch, k, c, order);
    }
  }

  lemma IsOrderFrom(k: Value, c: Value, keys: set<Value>)
    requires k in keys && c in keys && k != c
    ensures IsOrder([k, c] + Enumeration(keys - {k, c}), keys)
  {
    var rest := Enumeration(keys - {k, c});
    var order := [k, c] + rest;
    forall x ensures x in order <==> x in keys {
      assert x in order <==> x == k || x == c || x in rest;
    }
  }

  /** A new field written first, then a cyclic one: the fields have changed and the merge fails. */
  lemma WrittenThenFailed(fields: Fields, patch: Patch, k: Value, c: Value, order: seq<Value>)
    requires (forall x :: x in order ==> x in patch) && |order| >= 2 && order[0] == k && order[1] == c
    requires Written(fields, k, patch[k]) && patch[c].None?
    ensures !MergeInOrder(fields, patch, order).ok && MergeInOrder(fields, patch, order).fields != fields
  {
    assert [] + [k] == [k] && [k] + [c] == order[..2];
    MergeAppend(fields, patch, [], k);
    MergeAppend(fields, patch, [k], c);
    FailureIsFinal(fields, patch, order, 2);
    assert fields[k := patch[k].value][k] == patch[k].value;
  }

  /** A patch of one new field and one cyclic field, taken in that order: the state
      has changed and the merge has failed, so the revision stands still. */
  lemma PartialMerge()
    ensures
      var a, b := String("a"), String("b");
      var t := Leaf(Boolean(true));
      MergeInOrder(map[], map[a := Some(t), b := None], [a, b]) == Outcome(map[a := t], true, false)
  {
    var a, b := String("a"), String("b");
    var patch: Patch := map[a := Some(Leaf(Boolean(true))), b := None];
    assert [a, b][..1] == [a] && [a][..0] == [];
    assert MergeInOrder(map[], patch, []) == Outcome(map[], false, true);
    assert MergeInOrder(map[], patch, [a]) == Outcome(map[a := Leaf(Boolean(true))], true, true);
  }

  // ---- runs ------------------------------------------------------------------------

  datatype Snapshot = Snapshot(revision: nat, domains: map<string, Fields>)

  datatype Merge = Merge(domain: string, patch: Patch)

  ghost predicate Applicable(s: Snapshot, m: Merge) {
    m.domain in s.domains && AllAcyclic(m.patch)
  }

  ghost function Step(s: Snapshot, m: Merge): Snapshot
    requires Applicable(s, m)
  {
    var fields := s.domains[m.domain];
    Snapshot(s.revision + (if Changes(fields, m.patch) then 1 else 0),
             s.domains[m.domain := Override(fields, m.patch)])
  }

  /** `run` is a sequence of snapshots, each the merge of some patch into the one before. */
  ghost predicate IsRun(run: seq<Snapshot>, merges: seq<Merge>) {
    && |run| == |merges| + 1
    && forall i :: 0 <= i < |merges| ==> Applicable(run[i], merges[i]) && run[i + 1] == Step(run[i], merges[i])
  }

  lemma StepKeepsOrCounts(s: Snapshot, m: Merge)
    requires Applicable(s, m)
    ensures Step(s, m).revision == s.revision ==> Step(s, m) == s
    ensures s.revision <= Step(s, m).revision <= s.revision + 1
  {
    UnchangedMeansEqual(s.domains[m.domain], m.patch);
  }

  lemma {:induction false} RevisionGrows(run: seq<Snapshot>, merges: seq<Merge>, i: nat, k: nat)
    requires IsRun(run, merges) && i <= k < |run|
    ensures run[i].revision <= run[k].revision
    decreases k
  {
    if i == k {
    } else {
      RevisionGrows(run, merges, i, k - 1);
      StepKeepsOrCounts(run[k - 1], merges[k - 1]);
      assert run[k - 1 + 1] == Step(run[k - 1], merges[k - 1]);
    }
  }

  /** Over any run of acyclic patches the revision never falls, and two snapshots of
      equal revision are the same state. */
  lemma {:induction false} EqualRevisionEqualState(run: seq<Snapshot>, merges: seq<Merge>, i: nat, k: nat)
    requires IsRun(run, merges) && i <= k < |run|
    ensures run[i].revision <= run[k].revision
    ensures run[i].revision == run[k].revision ==> run[i].domains == run[k].domains
    decreases k
  {
    if i == k {
    } else {
      RevisionGrows(run, merges, i, k - 1);
      EqualRevisionEqualState(run, merges, i, k - 1);
      StepKeepsOrCounts(run[k - 1], merges[k - 1]);
      assert run[k - 1 + 1] == Step(run[k - 1], merges[k - 1]);
    }
  }
}
