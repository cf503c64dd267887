/** `merge` on the heap: the snapshot's tables are updated field by field with copies. */
module StateMerge {
  import opened LuaHeap
  import opened LuaMemory
  import opened StateTree
  import opened StateEqual
  import opened StateCopy
  import opened StateReducer

  const DOMAINS: set<string> := {"audio", "github", "hyprland", "media", "runtime", "system", "weather"}

  lemma DomainNames(domain: string)
    ensures domain in DOMAINS <==>
      || domain == "audio" || domain == "github" || domain == "hyprland" || domain == "media"
      || domain == "runtime" || domain == "system" || domain == "weather"
  {
  }

  /** The fields that hold arrays, so that an empty table for them counts as an array. */
  predicate ArrayField(domain: string, key: Value) {
    || (domain == "github" && key == String("notifications"))
    || (domain == "hyprland" && key in {String("monitors"), String("workspaces")})
  }

  /** Exactly three fields hold arrays. */
  lemma ArrayFieldMeaning(domain: string, key: Value)
    ensures ArrayField(domain, key) <==>
      || (domain, key) == ("github", String("notifications"))
      || (domain, key) == ("hyprland", String("monitors"))
      || (domain, key) == ("hyprland", String("workspaces"))
  {
  }

  /** There an empty table, marked or not, is stored as an empty array; elsewhere by its mark. */
  lemma EmptyFieldTree(h: Heap, domain: string, key: Value, v: Value)
    requires EmptyTable(h, v)
    ensures FieldTree(h, domain, key, v) == Some(Node(ArrayField(domain, key) || h[v.ref].marked, map[]))
  {
    var t := Node(h[v.ref].marked, map[]);
    assert Denotes(h, v, t);
    TreeIsUnique(h, v, t, TreeOf(h, v));
  }

  predicate EmptyTable(h: Heap, v: Value) {
    v.Table? && v.ref in h && h[v.ref].entries == map[]
  }

  /** The tree a patch field stands for, or nothing when it contains a cycle. */
  ghost function FieldTree(h: Heap, domain: string, key: Value, v: Value): Option<Tree> {
    if ArrayField(domain, key) && EmptyTable(h, v) then Some(Node(true, map[]))
    else if Acyclic(h, v) then Some(TreeOf(h, v))
    else None
  }

  ghost function PatchTrees(h: Heap, domain: string, entries: map<Value, Value>): Patch {
    map k | k in entries :: FieldTree(h, domain, k, entries[k])
  }

  ghost predicate Closed(h: Heap) {
    forall r, k :: r in h && k in h[r].entries ==> Proper(h, h[r].entries[k])
  }

  lemma {:induction false} DenotesInClosedHeap(h: Heap, h': Heap, v: Value, t: Tree)
    requires Extends(h, h') && Closed(h) && Proper(h, v) && Denotes(h', v, t)
    ensures Denotes(h, v, t)
    decreases t
  {
    if t.Leaf? {
    } else {
      forall k | k in t.children ensures Denotes(h, h[v.ref].entries[k], t.children[k]) {
        assert k in h[v.ref].entries.Keys;
        DenotesInClosedHeap(h, h', h[v.ref].entries[k], t.children[k]);
      }
    }
  }

  ghost predicate FieldsDenote(body: Heap, entries: map<Value, Value>, fields: Fields) {
    && entries.Keys == fields.Keys
    && forall k :: k in fields ==> Denotes(body, entries[k], fields[k])
  }

  lemma FieldsInLargerHeap(body: Heap, body': Heap, entries: map<Value, Value>, fields: Fields)
    requires Extends(body, body') && FieldsDenote(body, entries, fields)
    ensures FieldsDenote(body', entries, fields)
  {
    forall k | k in fields ensures Denotes(body', entries[k], fields[k]) {
      DenotesInLargerHeap(body, body', entries[k], fields[k]);
    }
  }

  /** The tables that two parts of the heap share are among `shared`, and those hold no NaN. */
  ghost predicate Apart(body: Heap, source: Heap, shared: set<nat>) {
    true == (
    && (forall a :: a in body && a in source ==> a in shared)
    && forall a, t :: a in shared && Denotes(source, Table(a), t) ==> NaNFree(t))
  }

  lemma ApartIsSharedNaNFree(h: Heap, body: Heap, source: Heap, shared: set<nat>)
    requires Extends(source, h) && Closed(source) && Apart(body, source, shared)
    ensures SharedNaNFree(h, body, source)
  {
    forall a, t | a in body && a in source && Denotes(h, Table(a), t) ensures NaNFree(t) {
      DenotesInClosedHeap(source, h, Table(a), t);
    }
  }

  /** What `equal` decides when a stored field meets a patch field in another part of
      the heap. */
  lemma ComparisonMeaning(h: Heap, body: Heap, source: Heap, shared: set<nat>, stored: Value, v: Value, fields: Fields, k: Value)
    requires WellFormed(h) && Extends(body, h) && Extends(source, h) && Closed(source) && Apart(body, source, shared)
    requires v != Nil && Proper(source, v)
    requires if k in fields then Denotes(body, stored, fields[k]) else stored == Nil
    ensures Acyclic(h, v) <==> Acyclic(source, v)
    ensures Acyclic(source, v) ==> (Bisimilar(h, stored, v) <==> Holds(fields, k, TreeOf(source, v)))
    ensures Acyclic(source, v) ==> TreeOf(h, v) == TreeOf(source, v)
    ensures !Acyclic(source, v) ==> !Bisimilar(h, stored, v)
  {
    if Acyclic(h, v) {
      DenotesInClosedHeap(source, h, v, TreeOf(h, v));
    }
    if Acyclic(source, v) {
      DenotesInLargerHeap(source, h, v, TreeOf(source, v));
      TreeIsUnique(h, v, TreeOf(h, v), TreeOf(source, v));
    }
    if k in fields {
      ApartIsSharedNaNFree(h, body, source, shared);
      StoredComparison(h, body, source, stored, v, fields[k]);
    } else {
      assert !Bisimilar(h, Nil, v);
    }
  }

  lemma StoredComparison(h: Heap, body: Heap, source: Heap, stored: Value, v: Value, t: Tree)
    requires WellFormed(h) && Extends(body, h) && Extends(source, h) && SharedNaNFree(h, body, source)
    requires Denotes(body, stored, t)
    ensures Acyclic(source, v) ==> (Bisimilar(h, stored, v) <==> SameTree(t, TreeOf(source, v)))
    ensures !Acyclic(h, v) ==> !Bisimilar(h, stored, v)
  {
    if Acyclic(source, v) {
      BisimilarIsSameTree(h, body, source, stored, v, t, TreeOf(source, v));
    }
    if Bisimilar(h, stored, v) {
      var rel :| Bisimulation(h, rel) && Related(rel, stored, v);
      DenotesInLargerHeap(body, h, stored, t);
      BisimilarToTreeHasTree(h, rel, stored, v, t);
    }
  }

  /** One step of the reducer: refused on a cycle, skipped when the field is the same,
      stored otherwise. */
  ghost predicate FieldMerged(before: map<string, Fields>, domain: string, key: Value, t: Option<Tree>,
                              written: Result<bool, CopyError>, after: map<string, Fields>)
    requires domain in before
  {
    && (written.Err? <==> t.None?)
    && (written.Ok? ==> (written.value <==> !Holds(before[domain], key, t.value)))
    && after == if written.Ok? && written.value then before[domain := before[domain][key := t.value]] else before
  }

  /** The whole patch: the domain becomes what the reducer computes along `order`. */
  ghost predicate PatchMerged(before: map<string, Fields>, domain: string, patch: Patch, order: seq<Value>,
                              result: Result<bool, CopyError>, after: map<string, Fields>)
    requires domain in before
  {
    true == (
      && (forall k :: k in order ==> k in patch)
      && var o := MergeInOrder(before[domain], patch, order);
      && after == before[domain := o.fields]
      && (o.ok ==> IsOrder(order, patch.Keys))
      && result == if o.ok then Ok(o.changed) else Err(ContainsCycle))
  }

  /** The domain shows the patch, and a change is reported exactly when it did not before. */
  ghost predicate ShownAfter(before: map<string, Fields>, domain: string, patch: Patch, after: map<string, Fields>, changed: bool) {
    true == (
      domain in before && domain in after && AllAcyclic(patch) && ShowsPatch(before[domain], patch, after[domain], changed))
  }

  lemma MergedShowsPatch(before: map<string, Fields>, domain: string, patch: Patch, order: seq<Value>, changed: bool,
                         after: map<string, Fields>)
    requires domain in before && PatchMerged(before, domain, patch, order, Ok(changed), after)
    ensures ShownAfter(before, domain, patch, after, changed)
  {
    MergedIsAcyclic(before[domain], patch, order);
    MergeShowsPatch(before[domain], patch, order);
  }

  lemma {:induction false} MergedIsAcyclic(fields: Fields, patch: Patch, order: seq<Value>)
    requires forall k :: k in order ==> k in patch
    ensures MergeInOrder(fields, patch, order).ok <==> forall k :: k in order ==> patch[k].Some?
  {
    if order == [] {
    } else {
      var last := |order| - 1;
      MergedIsAcyclic(fields, patch, order[..last]);
      assert order == order[..last] + [order[last]];
      assert order[last] in order;
    }
  }

  /** The fields `seen` of the patch have been merged, in the order `order`. */
  ghost predicate Progress(start: map<string, Fields>, domain: string, patch: Patch, order: seq<Value>, seen: set<Value>,
                           changed: bool, trees: map<string, Fields>)
    requires domain in start
  {
    true == (
      && seen <= patch.Keys && IsOrder(order, seen) && trees.Keys == start.Keys
      && trees == start[domain := trees[domain]]
      && (forall k :: k in order ==> k in patch)
      && MergeInOrder(start[domain], patch, order) == Outcome(trees[domain], changed, true))
  }

  lemma NothingMerged(start: map<string, Fields>, domain: string, patch: Patch)
    requires domain in start
    ensures Progress(start, domain, patch, [], {}, false, start)
  {
  }

  lemma AllMerged(start: map<string, Fields>, domain: string, patch: Patch, order: seq<Value>, seen: set<Value>,
                  changed: bool, trees: map<string, Fields>)
    requires domain in start && Progress(start, domain, patch, order, seen, changed, trees) && patch.Keys - seen == {}
    ensures PatchMerged(start, domain, patch, order, Ok(changed), trees)
  {
    assert seen == patch.Keys by {
      assert forall k :: k in patch.Keys && k !in seen ==> k in patch.Keys - seen;
    }
  }

  lemma ProgressStep(start: map<string, Fields>, domain: string, patch: Patch, order: seq<Value>, seen: set<Value>,
                     changed: bool, before: map<string, Fields>, key: Value, written: Result<bool, CopyError>, after: map<string, Fields>)
    requires domain in start && key in patch && key !in seen
    requires Progress(start, domain, patch, order, seen, changed, before)
    requires FieldMerged(before, domain, key, patch[key], written, after)
    ensures written.Ok? ==> Progress(start, domain, patch, order + [key], seen + {key}, changed || written.value, after)
    ensures written.Err? ==> PatchMerged(start, domain, patch, order + [key], Err(ContainsCycle), after)
  {
    MergeAppend(start[domain], patch, order, key);
    if written.Ok? {
      OrderExtended(order, seen, key);
    }
  }

  lemma OrderExtended(order: seq<Value>, seen: set<Value>, key: Value)
    requires IsOrder(order, seen) && key !in seen
    ensures IsOrder(order + [key], seen + {key})
  {
    assert forall k :: k in order + [key] <==> k in order || k == key;
  }

  datatype MergeResult = Merged(changed: bool, revision: nat) | UnknownDomain | PatchNotTable | CyclicPatch

  class StateStore {
    const memory: Memory
    var revision: nat
    const domains: map<string, nat>     // the table of each domain of the snapshot
    ghost var trees: map<string, Fields>
    ghost var body: Heap                // the tables below the domain tables

    constructor (memory: Memory, domains: map<string, nat>, ghost trees: map<string, Fields>, ghost body: Heap)
      requires domains.Keys == DOMAINS
      requires memory.Valid() && ScalarKeys(memory.heap) && StateTables(memory.heap, domains, trees, body)
      ensures Valid() && this.memory == memory && this.domains == domains && this.trees == trees && revision == 0
    {
      this.memory := memory;
      this.domains := domains;
      this.trees := trees;
      this.body := body;
      revision := 0;
    }

    ghost predicate Valid()
      reads this, memory
    {
      true == (memory.Valid() && ScalarKeys(memory.heap) && StateTables(memory.heap, domains, trees, body))
    }

    ghost predicate SeparatePatch(patch: nat, input: Heap, shared: set<nat>)
      reads this, memory
    {
      Separate(memory.heap, domains, body, patch, input, shared)
    }

    method Merge(domain: string, patch: Value, ghost input: Heap, ghost shared: set<nat>) returns (result: MergeResult, ghost order: seq<Value>)
      requires Valid() && domains.Keys == DOMAINS    // as constructed
      requires patch.Table? ==> SeparatePatch(patch.ref, input, shared)
      modifies this, memory
      ensures Valid()
      ensures domain !in DOMAINS <==> result == UnknownDomain
      ensures domain in domains && !patch.Table? ==> result == PatchNotTable
      ensures result.UnknownDomain? || result.PatchNotTable? ==> revision == old(revision) && trees == old(trees)
      ensures domain in domains && patch.Table? ==>
        var p := PatchTrees(input, domain, input[patch.ref].entries);
        var merged := if result.Merged? then Ok(result.changed) else Err(ContainsCycle);
        && PatchMerged(old(trees), domain, p, order, merged, trees)
        && revision == old(revision) + (if result.Merged? && result.changed then 1 else 0)
        && (result == Merged(merged.Ok? && merged.value, revision) || result == CyclicPatch)
        && SeparatePatch(patch.ref, input, shared)
      ensures domain in domains && patch.Table? ==>
        (result == CyclicPatch <==> !AllAcyclic(PatchTrees(input, domain, input[patch.ref].entries)))
      // What the snapshot then shows, path by path.
      ensures result.Merged? ==>
        ShownAfter(old(trees), domain, PatchTrees(input, domain, input[patch.ref].entries), trees, result.changed)
    {
      if domain !in domains {
        return UnknownDomain, [];
      }
      if !patch.Table? {
        return PatchNotTable, [];
      }
      result, order := MergeTable(domain, patch.ref, input, shared);
    }

    method MergeTable(domain: string, patch: nat, ghost input: Heap, ghost shared: set<nat>) returns (result: MergeResult, ghost order: seq<Value>)
      requires Valid() && domain in domains && SeparatePatch(patch, input, shared)
      modifies this, memory
      ensures Valid() && SeparatePatch(patch, input, shared)
      ensures
        var p := PatchTrees(input, domain, input[patch].entries);
        var merged := if result.Merged? then Ok(result.changed) else Err(ContainsCycle);
        && PatchMerged(old(trees), domain, p, order, merged, trees)
        && (result.Merged? ==> ShownAfter(old(trees), domain, p, trees, result.changed))
      ensures revision == old(revision) + (if result.Merged? && result.changed then 1 else 0)
      ensures result == CyclicPatch || (result.Merged? && result.revision == revision)
      ensures result == CyclicPatch <==> !AllAcyclic(PatchTrees(input, domain, input[patch].entries))
    {
      var changed;
      changed, order := MergeFields(domain, patch, input, shared);
      MergedIsAcyclic(old(trees)[domain], PatchTrees(input, domain, input[patch].entries), order);
      if changed.Err? {
        return CyclicPatch, order;
      }
      MergedShowsPatch(old(trees), domain, PatchTrees(input, domain, input[patch].entries), order, changed.value, trees);
      if changed.value {
        revision := revision + 1;
      }
      result := Merged(changed.value, revision);
    }

    /** The loop over `pairs(patch)`, in whatever order the fields come. */
    method MergeFields(domain: string, patch: nat, ghost input: Heap, ghost shared: set<nat>) returns (result: Result<bool, CopyError>, ghost order: seq<Value>)
      requires Valid() && domain in domains && SeparatePatch(patch, input, shared)
      modifies this, memory
      ensures Valid() && SeparatePatch(patch, input, shared) && revision == old(revision)
      ensures PatchMerged(old(trees), domain, PatchTrees(input, domain, input[patch].entries), order, result, trees)
    {
      var changed := false;
      var entries := memory.heap[patch].entries;
      ghost var p := PatchTrees(input, domain, entries);
      var remaining := entries.Keys;
      ghost var seen: set<Value> := {};
      order := [];
      NothingMerged(trees, domain, p);
      while remaining != {}
        invariant Valid() && SeparatePatch(patch, input, shared) && revision == old(revision)
        invariant remaining == p.Keys - seen
        invariant Progress(old(trees), domain, p, order, seen, changed, trees)
        decreases remaining
      {
        var key :| key in remaining;
        var next := MergeNext(domain, key, patch, input, shared, old(trees), order, seen, changed);
        order := order + [key];
        if next.Err? {
          return next, order;
        }
        changed := next.value;
        seen, remaining := seen + {key}, remaining - {key};
      }
      AllMerged(old(trees), domain, p, order, seen, changed, trees);
      result := Ok(changed);
    }

    method MergeNext(domain: string, key: Value, patch: nat, ghost input: Heap, ghost shared: set<nat>, ghost start: map<string, Fields>,
                     ghost order: seq<Value>, ghost seen: set<Value>, changed: bool) returns (result: Result<bool, CopyError>)
      requires Valid() && domain in domains && domain in start && SeparatePatch(patch, input, shared)
      requires key in input[patch].entries && key !in seen
      requires Progress(start, domain, PatchTrees(input, domain, input[patch].entries), order, seen, changed, trees)
      modifies this, memory
      ensures Valid() && SeparatePatch(patch, input, shared) && revision == old(revision)
      ensures
        var p := PatchTrees(input, domain, input[patch].entries);
        if result.Ok? then Progress(start, domain, p, order + [key], seen + {key}, result.value, trees)
        else PatchMerged(start, domain, p, order + [key], result, trees)
    {
      ghost var before := trees;
      var written := MergeField(domain, key, patch, input, shared);
      ProgressStep(start, domain, PatchTrees(input, domain, input[patch].entries), order, seen, changed, before, key, written, trees);
      result := if written.Ok? then Ok(changed || written.value) else Err(ContainsCycle);
    }

    /** One field of the patch: compared, and copied into the snapshot when it differs. */
    method MergeField(domain: string, key: Value, patch: nat, ghost input: Heap, ghost shared: set<nat>) returns (written: Result<bool, CopyError>)
      requires Valid() && domain in domains && SeparatePatch(patch, input, shared) && key in input[patch].entries
      modifies this, memory
      ensures Valid() && SeparatePatch(patch, input, shared) && revision == old(revision)
      ensures FieldMerged(old(trees), domain, key, FieldTree(input, domain, key, input[patch].entries[key]), written, trees)
    {
      PatchField(memory.heap, domains, body, patch, input, shared, key);
      var v := memory.heap[patch].entries[key];
      if ArrayField(domain, key) && EmptyTable(memory.heap, v) {
        written := MergeEmptyArray(domain, key, patch, input, shared);
      } else {
        written := StoreField(domain, key, v, input, patch, input, shared);
      }
    }

    /** `json.array()` stands for an empty table in an array field. */
    method MergeEmptyArray(domain: string, key: Value, ghost patch: nat, ghost input: Heap, ghost shared: set<nat>) returns (written: Result<bool, CopyError>)
      requires Valid() && domain in domains && SeparatePatch(patch, input, shared) && !key.Table? && key != Nil
      modifies this, memory
      ensures Valid() && SeparatePatch(patch, input, shared) && revision == old(revision)
      ensures FieldMerged(old(trees), domain, key, Some(Node(true, map[])), written, trees)
    {
      ghost var h := memory.heap;
      var c := memory.CreateTable(true);
      ghost var source := map[c := TableData(map[], true, false)];
      StateInLargerHeap(h, memory.heap, domains, trees, body, body);
      SeparateInLargerHeap(h, memory.heap, domains, body, body, patch, input, shared);
      NewTableIsApart(h, domains, trees, body, c);
      EmptyArrayTree(source, c);
      written := StoreField(domain, key, Table(c), source, patch, input, shared);
    }

    method StoreField(domain: string, key: Value, v: Value, ghost source: Heap, ghost patch: nat, ghost input: Heap, ghost shared: set<nat>)
      returns (written: Result<bool, CopyError>)
      requires Valid() && domain in domains && SeparatePatch(patch, input, shared) && !key.Table? && key != Nil
      requires Extends(source, memory.heap) && Closed(source) && Apart(body, source, shared) && Proper(source, v) && v != Nil
      modifies this, memory
      ensures Valid() && SeparatePatch(patch, input, shared) && revision == old(revision)
      ensures FieldMerged(old(trees), domain, key, AsTree(source, v), written, trees)
    {
      var target := domains[domain];
      ghost var h := memory.heap;
      FieldOfState(h, domains, trees, body, domain, key);
      var stored := Field(memory.heap, target, key);
      ComparisonMeaning(h, body, source, shared, stored, v, trees[domain], key);
      var comparison := new Comparison(memory.heap);
      var same := comparison.Compare(stored, v);
      if same {
        return Ok(false);
      }
      var failure := CopyField(domain, key, v, patch, input, shared);
      written := if failure.Some? then Err(failure.value) else Ok(true);
    }

    /** The value is copied, unless it is cyclic, and the copy stored. */
    method CopyField(domain: string, key: Value, v: Value, ghost patch: nat, ghost input: Heap, ghost shared: set<nat>)
      returns (failure: Option<CopyError>)
      requires Valid() && domain in domains && SeparatePatch(patch, input, shared) && !key.Table? && key != Nil
      requires Proper(memory.heap, v) && v != Nil
      modifies this, memory
      ensures Valid() && SeparatePatch(patch, input, shared) && revision == old(revision)
      ensures failure.None? <==> old(Acyclic(memory.heap, v))
      ensures trees ==
        if failure.Some? then old(trees) else old(trees[domain := trees[domain][key := TreeOf(memory.heap, v)]])
    {
      ghost var h := memory.heap;
      var copied := CopyValue(memory, v);
      if copied.Err? {
        StateInLargerHeap(h, memory.heap, domains, trees, body, body);
        SeparateInLargerHeap(h, memory.heap, domains, body, body, patch, input, shared);
        return Some(copied.error);
      }
      WriteCopy(domain, key, copied.value, h, TreeOf(h, v), patch, input, shared);
      failure := None;
    }

    /** The copy, made since `h`, becomes the field. */
    method WriteCopy(domain: string, key: Value, v: Value, ghost h: Heap, ghost t: Tree, ghost patch: nat, ghost input: Heap, ghost shared: set<nat>)
      requires memory.Valid() && ScalarKeys(memory.heap) && domain in domains && !key.Table? && key != Nil
      requires WellFormed(h) && Extends(h, memory.heap) && StateTables(h, domains, trees, body)
      requires Separate(h, domains, body, patch, input, shared)
      requires Proper(memory.heap, v) && v != Nil && Denotes(Fresh(h, memory.heap), v, t)
      modifies this, memory
      ensures Valid() && SeparatePatch(patch, input, shared) && revision == old(revision)
      ensures trees == old(trees)[domain := old(trees)[domain][key := t]]
    {
      ghost var body' := body + Fresh(h, memory.heap);
      StateAfterWrite(h, memory.heap, domains, trees, body, domain, key, v, t, patch, input, shared);
      memory.RawSet(domains[domain], key, v);
      body := body';
      trees := trees[domain := trees[domain][key := t]];
    }
  }

  /** Storing a copy made between `h` and `h'` keeps the snapshot, which now has the
      field, and keeps it apart from the patch. */
  lemma StateAfterWrite(h: Heap, h': Heap, domains: map<string, nat>, trees: map<string, Fields>, body: Heap,
                        domain: string, key: Value, v: Value, t: Tree, patch: nat, input: Heap, shared: set<nat>)
    requires WellFormed(h) && WellFormed(h') && Extends(h, h') && domain in domains
    requires StateTables(h, domains, trees, body) && Separate(h, domains, body, patch, input, shared)
    requires Denotes(Fresh(h, h'), v, t)
    ensures
      var r, body' := domains[domain], body + Fresh(h, h');
      && r in h' && r != NULL
      && var h'' := h'[r := h'[r].(entries := h'[r].entries[key := v])];
      && StateTables(h'', domains, trees[domain := trees[domain][key := t]], body')
      && Separate(h'', domains, body', patch, input, shared)
  {
    var body' := body + Fresh(h, h');
    StateInLargerHeap(h, h', domains, trees, body, body');
    SeparateInLargerHeap(h, h', domains, body, body', patch, input, shared);
    DenotesInLargerHeap(Fresh(h, h'), body', v, t);
    FieldOfState(h', domains, trees, body', domain, key);
    StateWithField(h', domains, trees, body', domain, key, v, t);
    SeparateWithField(h', domains, trees, body', domain, key, v, patch, input, shared);
  }

  /** The patch lives in `input`, a closed part of the heap apart from the snapshot. */
  ghost predicate Separate(h: Heap, domains: map<string, nat>, body: Heap, patch: nat, input: Heap, shared: set<nat>) {
    && patch in input
    && true == (
    && Extends(input, h) && Closed(input)
    && Apart(body, input, shared) && forall d :: d in domains ==> domains[d] !in input)
  }

  ghost function AsTree(h: Heap, v: Value): Option<Tree> {
    if Acyclic(h, v) then Some(TreeOf(h, v)) else None
  }

  lemma PatchField(h: Heap, domains: map<string, nat>, body: Heap, patch: nat, input: Heap, shared: set<nat>, key: Value)
    requires WellFormed(h) && ScalarKeys(h) && Separate(h, domains, body, patch, input, shared) && key in input[patch].entries
    ensures patch in h && h[patch] == input[patch] && !key.Table? && key != Nil
    ensures var v := input[patch].entries[key]; v != Nil && Proper(input, v) && (EmptyTable(h, v) <==> EmptyTable(input, v))
    ensures Extends(input, h) && Closed(input) && Apart(body, input, shared)
  {
    EntryIsProper(h, patch, key);
    assert ValidEntry(h, key, h[patch].entries[key]);
  }

  lemma FieldOfState(h: Heap, domains: map<string, nat>, trees: map<string, Fields>, body: Heap, domain: string, key: Value)
    requires WellFormed(h) && StateTables(h, domains, trees, body) && domain in domains
    ensures domains[domain] in h && domains[domain] != NULL && Extends(body, h)
    ensures Proper(h, Field(h, domains[domain], key))
    ensures
      var stored := Field(h, domains[domain], key);
      if key in trees[domain] then Denotes(body, stored, trees[domain][key]) else stored == Nil
  {
    assert DomainTable(h, domains[domain], trees[domain], body);
    FieldIsProper(h, domains[domain], key);
    assert key in h[domains[domain]].entries.Keys <==> key in trees[domain];
  }

  lemma NewTableIsApart(h: Heap, domains: map<string, nat>, trees: map<string, Fields>, body: Heap, c: nat)
    requires StateTables(h, domains, trees, body) && c !in h
    ensures c !in body && forall d :: d in domains ==> domains[d] != c
  {
    assert forall d :: d in domains ==> DomainTable(h, domains[d], trees[d], body);
  }

  lemma SeparateInLargerHeap(h: Heap, h': Heap, domains: map<string, nat>, body: Heap, body': Heap, patch: nat, input: Heap, shared: set<nat>)
    requires Separate(h, domains, body, patch, input, shared) && Extends(h, h')
    requires forall r :: r in body' ==> r in body || r !in h
    ensures Separate(h', domains, body', patch, input, shared)
  {
  }

  lemma SeparateWithField(h: Heap, domains: map<string, nat>, trees: map<string, Fields>, body: Heap, domain: string, key: Value, v: Value, patch: nat, input: Heap, shared: set<nat>)
    requires Separate(h, domains, body, patch, input, shared) && StateTables(h, domains, trees, body) && domain in domains
    requires domains[domain] in h
    ensures
      var r := domains[domain];
      Separate(h[r := h[r].(entries := h[r].entries[key := v])], domains, body, patch, input, shared)
  {
    assert domains[domain] !in input;
  }

  lemma EmptyArrayTree(source: Heap, c: nat)
    requires source == map[c := TableData(map[], true, false)]
    ensures Acyclic(source, Table(c)) && TreeOf(source, Table(c)) == Node(true, map[])
  {
    assert Denotes(source, Table(c), Node(true, map[]));
    TreeIsUnique(source, Table(c), TreeOf(source, Table(c)), Node(true, map[]));
  }

  /** The snapshot: one table for each domain, no two alike, none of them reachable
      from a field, and every field a tree in tables of its own. */
  ghost predicate StateTables(h: Heap, domains: map<string, nat>, trees: map<string, Fields>, body: Heap) {
    && domains.Keys == trees.Keys
    && true == (
    && Extends(body, h) && NULL !in body
    && (forall d, d' :: d in domains && d' in domains && d != d' ==> domains[d] != domains[d'])
    && forall d :: d in domains ==> DomainTable(h, domains[d], trees[d], body))
  }

  ghost predicate DomainTable(h: Heap, r: nat, fields: Fields, body: Heap) {
    true == (r in h && r != NULL && r !in body && FieldsDenote(body, h[r].entries, fields))
  }

  lemma StateInLargerHeap(h: Heap, h': Heap, domains: map<string, nat>, trees: map<string, Fields>, body: Heap, body': Heap)
    requires StateTables(h, domains, trees, body) && Extends(h, h') && Extends(body, body') && Extends(body', h')
    requires WellFormed(h) && forall r :: r in body' ==> r in body || r !in h
    ensures StateTables(h', domains, trees, body')
  {
    forall d | d in domains ensures DomainTable(h', domains[d], trees[d], body') {
      assert DomainTable(h, domains[d], trees[d], body);
      FieldsInLargerHeap(body, body', h[domains[d]].entries, trees[d]);
    }
  }

  lemma StateWithField(h: Heap, domains: map<string, nat>, trees: map<string, Fields>, body: Heap, domain: string, key: Value, v: Value, t: Tree)
    requires StateTables(h, domains, trees, body) && domain in domains && Denotes(body, v, t)
    ensures
      var r := domains[domain];
      StateTables(h[r := h[r].(entries := h[r].entries[key := v])], domains, trees[domain := trees[domain][key := t]], body)
  {
    var r := domains[domain];
    var h' := h[r := h[r].(entries := h[r].entries[key := v])];
    var trees' := trees[domain := trees[domain][key := t]];
    forall d | d in domains ensures DomainTable(h', domains[d], trees'[d], body) {
      assert DomainTable(h, domains[d], trees[d], body);
    }
    assert Extends(body, h') by {
      assert DomainTable(h, r, trees[domain], body);
    }
  }
}
