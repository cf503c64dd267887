/** The JSON encoder: a recursive traversal of a heap of tables that may share
    or contain themselves, guarded by a set of tables being visited. */
module JsonEncode {
  import opened LuaHeap
  import opened JsonTree

  const MAX_DEPTH: nat := 256

  datatype EncodeError =
    | NestingTooDeep
    | CircularTable
    | SparseArray
    | NonStringKey
    | NonFiniteNumber
    | UnsupportedType

  datatype Shape = ArrayShape(length: nat) | ObjectShape(length: nat)

  // ---- table shape -----------------------------------------------------

  /** The keys are exactly the integers 1..n. */
  ghost predicate DenseUpTo(entries: map<Value, Value>, n: nat) {
    forall k {:trigger k in entries} :: k in entries <==> k.Integer? && 1 <= k.i <= n
  }

  /** An array is a table whose keys are 1..n for some n; an empty table is an
      array only when it carries the mark, and a marked table must be dense. */
  ghost function ShapeOf(t: TableData): Result<Shape, EncodeError> {
    var n := |t.entries|;
    if DenseUpTo(t.entries, n) then
      Ok(if t.marked || n > 0 then ArrayShape(n) else ObjectShape(n))
    else if t.marked then Err(SparseArray)
    else Ok(ObjectShape(n))
  }

  ghost function Indices(n: nat): set<Value> {
    set i: int | 1 <= i <= n :: Integer(i)
  }

  lemma {:induction false} IndicesSize(n: nat)
    ensures |Indices(n)| == n
  {
    if n > 0 {
      IndicesSize(n - 1);
      assert Indices(n) == Indices(n - 1) + {Integer(n)};
    } else {
      assert Indices(0) == {};
    }
  }

  lemma SubsetSize<T>(a: set<T>, b: set<T>)
    requires a <= b
    ensures |a| <= |b|
    ensures |a| == |b| ==> a == b
  {
    assert b == a + (b - a);
    assert |b| == |a| + |b - a|;
  }

  /** Distinct positive integer keys are dense exactly when their number is their maximum. */
  lemma PigeonholeKeys(keys: set<Value>, maximum: nat)
    requires forall k :: k in keys ==> k.Integer? && 1 <= k.i <= maximum
    ensures |keys| == maximum ==> keys == Indices(maximum)
    ensures |keys| <= maximum
  {
    IndicesSize(maximum);
    forall k | k in keys ensures k in Indices(maximum) {
      assert 1 <= k.i <= maximum;
    }
    SubsetSize(keys, Indices(maximum));
  }

  /** A dense key set is counted by its largest index, so the length is determined. */
  lemma DenseLengthIsUnique(entries: map<Value, Value>, n: nat)
    requires DenseUpTo(entries, n)
    ensures |entries| == n
  {
    IndicesSize(n);
    forall k ensures k in Indices(n) <==> k in entries.Keys {
      if k in entries {
        assert 1 <= k.i <= n;
      }
    }
    assert entries.Keys == Indices(n);
  }

  /** What the pass over the entries knows once it has seen the keys `seen`. */
  ghost predicate Counted(seen: set<Value>, count: nat, maximum: nat, integerKeys: bool) {
    && count == |seen|
    && (integerKeys <==> forall k :: k in seen ==> k.Integer? && 1 <= k.i)
    && (forall k :: k in seen && k.Integer? ==> k.i <= maximum)
    && (maximum > 0 ==> Integer(maximum) in seen)
  }

  lemma CountOneMore(seen: set<Value>, count: nat, maximum: nat, integerKeys: bool, key: Value)
    requires Counted(seen, count, maximum, integerKeys) && key !in seen
    ensures
      var positive := key.Integer? && 1 <= key.i;
      Counted(seen + {key}, count + 1, if positive && key.i > maximum then key.i else maximum, integerKeys && positive)
  {
  }

  lemma CountDecidesShape(t: TableData, count: nat, maximum: nat, integerKeys: bool)
    requires Counted(t.entries.Keys, count, maximum, integerKeys)
    ensures
      var dense := integerKeys && count == maximum;
      ShapeOf(t) ==
        if t.marked && !dense then Err(SparseArray)
        else if t.marked || (count > 0 && dense) then Ok(ArrayShape(maximum))
        else Ok(ObjectShape(count))
  {
    assert integerKeys && count == maximum <==> DenseUpTo(t.entries, |t.entries|) by {
      if integerKeys {
        PigeonholeKeys(t.entries.Keys, maximum);
        if count == maximum {
          forall k ensures k in t.entries <==> k.Integer? && 1 <= k.i <= maximum {
            assert k in t.entries <==> k in Indices(maximum);
          }
        } else {
          assert maximum > count && Integer(maximum) in t.entries;
        }
      }
    }
  }

  /** `table_shape`: one pass over the entries, in whatever order `lua_next` yields them. */
  method TableShape(t: TableData) returns (shape: Result<Shape, EncodeError>)
    ensures shape == ShapeOf(t)
  {
    var count: nat := 0;
    var maximum: nat := 0;
    var integerKeys := true;
    var remaining := t.entries.Keys;
    ghost var seen: set<Value> := {};
    while remaining != {}
      invariant remaining <= t.entries.Keys && seen == t.entries.Keys - remaining
      invariant Counted(seen, count, maximum, integerKeys)
      decreases remaining
    {
      var key :| key in remaining;
      CountOneMore(seen, count, maximum, integerKeys, key);
      remaining := remaining - {key};
      seen := seen + {key};
      count := count + 1;
      if !key.Integer? {
        integerKeys := false;
      } else if key.i < 1 {
        integerKeys := false;
      } else if key.i > maximum {
        maximum := key.i;
      }
    }
    assert seen == t.entries.Keys;
    CountDecidesShape(t, count, maximum, integerKeys);
    var dense := integerKeys && count == maximum;
    if t.marked && !dense {
      return Err(SparseArray);
    }
    if t.marked || (count > 0 && dense) {
      shape := Ok(ArrayShape(maximum));
    } else {
      shape := Ok(ObjectShape(count));
    }
  }

  // ---- what encoding means ---------------------------------------------

  /** `j` is the tree unfolding of `v`: an independent definition by recursion on
      the tree, with no visiting set, no depth and no traversal order. (Comparing
      with `true` keeps the verifier from splitting every use into its conjuncts.) */
  ghost predicate Unfolds(h: Heap, v: Value, j: Json)
    decreases j
  {
    true == (
    match j
    case JNull => v == Nil || v == Table(NULL)
    case JBool(b) => v == Boolean(b)
    case JInt(i) => v.Integer? && v.i == i
    case JReal(r) => v == Number(Finite(r))
    case JString(s) => v == String(s)
    case JArray(items) =>
      && v.Table? && v.ref in h && v.ref != NULL
      && var t := h[v.ref];
      && DenseUpTo(t.entries, |items|)
      && (t.marked || items != [])
      && forall k :: k in t.entries ==> Unfolds(h, t.entries[k], items[k.i - 1])
    case JObject(members) =>
      && v.Table? && v.ref in h && v.ref != NULL
      && var t := h[v.ref];
      && !t.marked
      && (forall k :: k in t.entries ==> k.String?)
      && Ascending(Keys(members))
      && (forall s: string :: String(s) in t.entries <==> s in Keys(members))
      && forall i :: 0 <= i < |members| ==>
           String(members[i].key) in t.entries && Unfolds(h, t.entries[String(members[i].key)], members[i].value)
    )
  }

  function Keys(members: seq<Member>): (r: seq<string>)
    ensures |r| == |members|
    ensures forall i :: 0 <= i < |r| ==> r[i] == members[i].key
  {
    seq(|members|, i requires 0 <= i < |members| => members[i].key)
  }

  /** A value has at most one unfolding. */
  lemma {:induction false} UnfoldingIsUnique(h: Heap, v: Value, j: Json, j': Json)
    requires Unfolds(h, v, j) && Unfolds(h, v, j')
    ensures j == j'
    decreases j
  {
    match j
    case JArray(items) =>
      var t := h[v.ref];
      DenseLengthIsUnique(t.entries, |items|);
      assert items != [] ==> Integer(1) in t.entries;
      if j'.JArray? {
        DenseLengthIsUnique(t.entries, |j'.items|);
        forall k | 0 <= k < |items| ensures items[k] == j'.items[k] {
          var key := Integer(k + 1);
          assert key in t.entries;
          UnfoldingIsUnique(h, t.entries[key], items[k], j'.items[k]);
        }
        assert items == j'.items;
      }
    case JObject(members) =>
      var t := h[v.ref];
      assert Integer(1) !in t.entries;
      if j'.JObject? {
        AscendingIsUnique(Keys(members), Keys(j'.members));
        forall i | 0 <= i < |members| ensures members[i] == j'.members[i] {
          assert Keys(members)[i] == Keys(j'.members)[i];
          UnfoldingIsUnique(h, t.entries[String(members[i].key)], members[i].value, j'.members[i].value);
        }
        assert members == j'.members;
      }
    case _ =>
  }

  // ---- the encoder as a function of the heap ----------------------------

  ghost predicate StringKeys(entries: map<Value, Value>) {
    forall k :: k in entries ==> k.String?
  }

  /** The string keys of a table in the order the encoder writes them. */
  ghost function AscendingKeys(entries: map<Value, Value>): (keys: seq<string>)
    requires StringKeys(entries)
    ensures Ascending(keys)
    ensures forall s :: s in keys <==> String(s) in entries
    decreases |entries|
  {
    if entries == map[] then []
    else
      var k :| k in entries;
      var rest := entries - {k};
      assert |rest| < |entries| by {
        assert rest.Keys == entries.Keys - {k};
        assert |entries.Keys| == |rest.Keys| + 1;
      }
      InsertKeepsAscending(k.s, AscendingKeys(rest));
      InsertKey(k.s, AscendingKeys(rest))
  }

  /** The outcome of `encode_value`, first error included. */
  ghost function Encode(h: Heap, v: Value, depth: nat, visiting: set<nat>): Result<Json, EncodeError>
    requires WellFormed(h) && Proper(h, v) && depth <= MAX_DEPTH
    decreases MAX_DEPTH - depth, 2, 0
  {
    match v
    case Nil => Ok(JNull)
    case Boolean(b) => Ok(JBool(b))
    case Integer(i) => Ok(JInt(i))
    case Number(f) => if f.Finite? then Ok(JReal(f.value)) else Err(NonFiniteNumber)
    case String(s) => Ok(JString(s))
    case Other(_) => Err(UnsupportedType)
    case Table(r) =>
      if r == NULL then Ok(JNull)
      else if depth >= MAX_DEPTH then Err(NestingTooDeep)
      else if r in visiting then Err(CircularTable)
      else EncodeContents(h, r, depth, visiting + {r})
  }

  ghost function EncodeContents(h: Heap, r: nat, depth: nat, visiting: set<nat>): Result<Json, EncodeError>
    requires WellFormed(h) && r in h && depth < MAX_DEPTH
    decreases MAX_DEPTH - depth, 1, 0
  {
    match ShapeOf(h[r])
    case Err(e) => Err(e)
    case Ok(ArrayShape(n)) =>
      (match EncodeItems(h, r, n, n, depth, visiting)
       case Ok(items) => Ok(JArray(items))
       case Err(e) => Err(e))
    case Ok(ObjectShape(_)) =>
      if !StringKeys(h[r].entries) then Err(NonStringKey)
      else
        var keys := AscendingKeys(h[r].entries);
        match EncodeMembers(h, r, keys, |keys|, depth, visiting)
        case Ok(members) => Ok(JObject(members))
        case Err(e) => Err(e)
  }

  /** The first `count` of `n` array items, or the first error among them. */
  ghost function EncodeItems(h: Heap, r: nat, count: nat, n: nat, depth: nat, visiting: set<nat>)
    : (result: Result<seq<Json>, EncodeError>)
    requires WellFormed(h) && r in h && depth < MAX_DEPTH && count <= n && DenseUpTo(h[r].entries, n)
    decreases MAX_DEPTH - depth, 0, count
  {
    if count == 0 then Ok([])
    else
      match EncodeItems(h, r, count - 1, n, depth, visiting)
      case Err(e) => Err(e)
      case Ok(items) =>
        match Encode(h, h[r].entries[Integer(count)], depth + 1, visiting)
        case Err(e) => Err(e)
        case Ok(j) => Ok(items + [j])
  }

  ghost function EncodeMembers(h: Heap, r: nat, keys: seq<string>, count: nat, depth: nat, visiting: set<nat>)
    : (result: Result<seq<Member>, EncodeError>)
    requires WellFormed(h) && r in h && depth < MAX_DEPTH && count <= |keys|
    requires forall k :: k in keys ==> String(k) in h[r].entries
    decreases MAX_DEPTH - depth, 0, count
  {
    if count == 0 then Ok([])
    else
      match EncodeMembers(h, r, keys, count - 1, depth, visiting)
      case Err(e) => Err(e)
      case Ok(members) =>
        match Encode(h, h[r].entries[String(keys[count - 1])], depth + 1, visiting)
        case Err(e) => Err(e)
        case Ok(j) => Ok(members + [Member(keys[count - 1], j)])
  }

  /** Item `i` of array `r` encodes to `j`. */
  ghost predicate ItemEncodes(h: Heap, r: nat, i: nat, j: Json, depth: nat, visiting: set<nat>)
    requires WellFormed(h) && r in h && depth < MAX_DEPTH
  {
    && Integer(i + 1) in h[r].entries
    && Encode(h, h[r].entries[Integer(i + 1)], depth + 1, visiting) == Ok(j)
  }

  ghost predicate MemberEncodes(h: Heap, r: nat, key: string, member: Member, depth: nat, visiting: set<nat>)
    requires WellFormed(h) && r in h && depth < MAX_DEPTH
  {
    && member.key == key && String(key) in h[r].entries
    && Encode(h, h[r].entries[String(key)], depth + 1, visiting) == Ok(member.value)
  }

  lemma OneMoreItem(h: Heap, r: nat, front: seq<Json>, j: Json, n: nat, depth: nat, visiting: set<nat>)
    requires WellFormed(h) && r in h && depth < MAX_DEPTH && |front| < n && DenseUpTo(h[r].entries, n)
    ensures EncodeItems(h, r, |front| + 1, n, depth, visiting) == Ok(front + [j]) <==>
            EncodeItems(h, r, |front|, n, depth, visiting) == Ok(front) && ItemEncodes(h, r, |front|, j, depth, visiting)
  {
    assert Integer(|front| + 1) in h[r].entries;
    LastIsUnique<Json>(front, j);
  }

  /** What ends with `x` after `front` does so in one way. */
  lemma LastIsUnique<T>(front: seq<T>, x: T)
    ensures forall s: seq<T>, y: T :: s + [y] == front + [x] ==> s == front && y == x
  {
    forall s: seq<T>, y: T | s + [y] == front + [x] ensures s == front && y == x {
      assert (s + [y])[|s|] == y && (front + [x])[|front|] == x;
      assert (s + [y])[..|s|] == s && (front + [x])[..|front|] == front;
    }
  }

  lemma {:induction false} ItemsAreChildren(h: Heap, r: nat, items: seq<Json>, n: nat, depth: nat, visiting: set<nat>)
    requires WellFormed(h) && r in h && depth < MAX_DEPTH && |items| <= n && DenseUpTo(h[r].entries, n)
    ensures EncodeItems(h, r, |items|, n, depth, visiting) == Ok(items) <==>
            forall i :: 0 <= i < |items| ==> ItemEncodes(h, r, i, items[i], depth, visiting)
    decreases |items|
  {
    if items == [] {
    } else {
      var last := |items| - 1;
      var front := items[..last];
      ItemsAreChildren(h, r, front, n, depth, visiting);
      assert items == front + [items[last]];
      OneMoreItem(h, r, front, items[last], n, depth, visiting);
      assert forall i :: 0 <= i < last ==> front[i] == items[i];
    }
  }

  lemma OneMoreMember(h: Heap, r: nat, keys: seq<string>, front: seq<Member>, m: Member, depth: nat, visiting: set<nat>)
    requires WellFormed(h) && r in h && depth < MAX_DEPTH && |front| < |keys|
    requires forall k :: k in keys ==> String(k) in h[r].entries
    ensures EncodeMembers(h, r, keys, |front| + 1, depth, visiting) == Ok(front + [m]) <==>
            EncodeMembers(h, r, keys, |front|, depth, visiting) == Ok(front) && MemberEncodes(h, r, keys[|front|], m, depth, visiting)
  {
    assert keys[|front|] in keys;
    LastIsUnique<Member>(front, m);
  }

  lemma {:induction false} MembersAreChildren(h: Heap, r: nat, keys: seq<string>, members: seq<Member>, depth: nat, visiting: set<nat>)
    requires WellFormed(h) && r in h && depth < MAX_DEPTH && |members| <= |keys|
    requires forall k :: k in keys ==> String(k) in h[r].entries
    ensures EncodeMembers(h, r, keys, |members|, depth, visiting) == Ok(members) <==>
            forall i :: 0 <= i < |members| ==> MemberEncodes(h, r, keys[i], members[i], depth, visiting)
    decreases |members|
  {
    if members == [] {
    } else {
      var last := |members| - 1;
      var front := members[..last];
      MembersAreChildren(h, r, keys, front, depth, visiting);
      assert members == front + [members[last]];
      OneMoreMember(h, r, keys, front, members[last], depth, visiting);
      assert forall i :: 0 <= i < last ==> front[i] == members[i];
    }
  }

  lemma {:induction false} ItemCount(h: Heap, r: nat, count: nat, n: nat, depth: nat, visiting: set<nat>)
    requires WellFormed(h) && r in h && depth < MAX_DEPTH && count <= n && DenseUpTo(h[r].entries, n)
    requires EncodeItems(h, r, count, n, depth, visiting).Ok?
    ensures |EncodeItems(h, r, count, n, depth, visiting).value| == count
  {
    if count == 0 {
    } else {
      ItemCount(h, r, count - 1, n, depth, visiting);
    }
  }

  lemma {:induction false} MemberCount(h: Heap, r: nat, keys: seq<string>, count: nat, depth: nat, visiting: set<nat>)
    requires WellFormed(h) && r in h && depth < MAX_DEPTH && count <= |keys|
    requires forall k :: k in keys ==> String(k) in h[r].entries
    requires EncodeMembers(h, r, keys, count, depth, visiting).Ok?
    ensures |EncodeMembers(h, r, keys, count, depth, visiting).value| == count
  {
    if count == 0 {
    } else {
      MemberCount(h, r, keys, count - 1, depth, visiting);
    }
  }

  lemma {:induction false} ItemErrorIsFinal(h: Heap, r: nat, count: nat, n: nat, depth: nat, visiting: set<nat>, upto: nat)
    requires WellFormed(h) && r in h && depth < MAX_DEPTH && count <= upto <= n && DenseUpTo(h[r].entries, n)
    requires EncodeItems(h, r, count, n, depth, visiting).Err?
    ensures EncodeItems(h, r, upto, n, depth, visiting) == EncodeItems(h, r, count, n, depth, visiting)
  {
    if count == upto {
    } else {
      ItemErrorIsFinal(h, r, count, n, depth, visiting, upto - 1);
    }
  }

  lemma {:induction false} MemberErrorIsFinal(h: Heap, r: nat, keys: seq<string>, count: nat, depth: nat, visiting: set<nat>, upto: nat)
    requires WellFormed(h) && r in h && depth < MAX_DEPTH && count <= upto <= |keys|
    requires forall k :: k in keys ==> String(k) in h[r].entries
    requires EncodeMembers(h, r, keys, count, depth, visiting).Err?
    ensures EncodeMembers(h, r, keys, upto, depth, visiting) == EncodeMembers(h, r, keys, count, depth, visiting)
  {
    if count == upto {
    } else {
      MemberErrorIsFinal(h, r, keys, count, depth, visiting, upto - 1);
    }
  }

  // ---- the traversal ----------------------------------------------------

  /** The visiting set is the set of tables on the path from the root to `v`. */
  ghost predicate OnPath(h: Heap, visiting: set<nat>, path: seq<nat>, v: Value) {
    && visiting == (set r | r in path)
    && (path != [] ==> Path(h, path) && (v.Table? ==> Edge(h, path[|path| - 1], v.ref)))
  }

  lemma ChildIsOnPath(h: Heap, visiting: set<nat>, path: seq<nat>, k: Value)
    requires path != [] && Path(h, path) && visiting == (set r | r in path)
    requires k in h[path[|path| - 1]].entries
    ensures OnPath(h, visiting, path, h[path[|path| - 1]].entries[k])
  {
    var t := h[path[|path| - 1]];
    assert t.entries[k] in t.entries.Values;
  }

  class EncodeContext {
    const heap: Heap
    var visiting: set<nat>

    constructor (heap: Heap)
      ensures this.heap == heap && visiting == {}
    {
      this.heap := heap;
      visiting := {};
    }

    method EnterTable(r: nat) returns (entered: bool)
      modifies this
      ensures entered <==> r !in old(visiting)
      ensures visiting == if entered then old(visiting) + {r} else old(visiting)
    {
      if r in visiting {
        return false;
      }
      visiting := visiting + {r};
      entered := true;
    }

    method LeaveTable(r: nat)
      modifies this
      ensures visiting == old(visiting) - {r}
    {
      visiting := visiting - {r};
    }

    method EncodeValue(v: Value, depth: nat, ghost path: seq<nat>) returns (result: Result<Json, EncodeError>)
      requires WellFormed(heap) && Proper(heap, v) && depth <= MAX_DEPTH
      requires |path| == depth && OnPath(heap, visiting, path, v)
      modifies this
      ensures visiting == old(visiting)
      ensures result == Encode(heap, v, depth, old(visiting))
      decreases MAX_DEPTH - depth, 2, 0
    {
      if v == Nil || v == Table(NULL) {
        return Ok(JNull);
      }
      match v {
        case Boolean(b) => result := Ok(JBool(b));
        case Integer(i) => result := Ok(JInt(i));
        case Number(f) =>
          if !f.Finite? {
            return Err(NonFiniteNumber);
          }
          result := Ok(JReal(f.value));
        case String(s) => result := Ok(JString(s));
        case Table(r) => result := EncodeTable(r, depth, path);
        case _ => result := Err(UnsupportedType);
      }
    }

    method EncodeTable(r: nat, depth: nat, ghost path: seq<nat>) returns (result: Result<Json, EncodeError>)
      requires WellFormed(heap) && r in heap && r != NULL && depth <= MAX_DEPTH
      requires |path| == depth && OnPath(heap, visiting, path, Table(r))
      modifies this
      ensures visiting == old(visiting)
      ensures result == Encode(heap, Table(r), depth, old(visiting))
      decreases MAX_DEPTH - depth, 1, 0
    {
      if depth >= MAX_DEPTH {
        return Err(NestingTooDeep);
      }
      var entered := EnterTable(r);
      if !entered {
        return Err(CircularTable);
      }
      ghost var path' := path + [r];
      assert Path(heap, path') && visiting == (set x | x in path');
      var shape := TableShape(heap[r]);
      match shape {
        case Err(e) => result := Err(e);
        case Ok(ArrayShape(n)) => result := EncodeArray(r, n, depth, path');
        case Ok(ObjectShape(_)) => result := EncodeObject(r, depth, path');
      }
      LeaveTable(r);
    }

    method EncodeArray(r: nat, n: nat, depth: nat, ghost path: seq<nat>) returns (result: Result<Json, EncodeError>)
      requires WellFormed(heap) && r in heap && depth < MAX_DEPTH && ShapeOf(heap[r]) == Ok(ArrayShape(n))
      requires |path| == depth + 1 && path[depth] == r && Path(heap, path) && visiting == (set x | x in path)
      modifies this
      ensures visiting == old(visiting)
      ensures result == EncodeContents(heap, r, depth, visiting)
      decreases MAX_DEPTH - depth, 0, 0
    {
      var items: seq<Json> := [];
      for item := 0 to n
        invariant visiting == old(visiting)
        invariant EncodeItems(heap, r, item, n, depth, visiting) == Ok(items)
      {
        assert Integer(item + 1) in heap[r].entries;
        ChildIsOnPath(heap, visiting, path, Integer(item + 1));
        var encoded := EncodeValue(heap[r].entries[Integer(item + 1)], depth + 1, path);
        if encoded.Err? {
          ItemErrorIsFinal(heap, r, item + 1, n, depth, visiting, n);
          return Err(encoded.error);
        }
        items := items + [encoded.value];
      }
      result := Ok(JArray(items));
    }

    /** `collect_object_keys`: all keys, sorted; refused when one is not a string. */
    method CollectObjectKeys(r: nat) returns (keys: Result<seq<string>, EncodeError>)
      requires WellFormed(heap) && r in heap
      ensures keys == if StringKeys(heap[r].entries) then Ok(AscendingKeys(heap[r].entries)) else Err(NonStringKey)
    {
      var collected: seq<string> := [];
      var remaining := heap[r].entries.Keys;
      while remaining != {}
        invariant remaining <= heap[r].entries.Keys
        invariant forall k :: k in heap[r].entries.Keys - remaining ==> k.String?
        invariant forall s :: s in collected <==> String(s) in heap[r].entries.Keys - remaining
        invariant Distinct(collected)
        decreases remaining
      {
        var key :| key in remaining;
        if !key.String? {
          return Err(NonStringKey);
        }
        remaining := remaining - {key};
        collected := collected + [key.s];
      }
      SortIsAscending(collected);
      AscendingIsUnique(SortKeys(collected), AscendingKeys(heap[r].entries));
      keys := Ok(SortKeys(collected));
    }

    method EncodeObject(r: nat, depth: nat, ghost path: seq<nat>) returns (result: Result<Json, EncodeError>)
      requires WellFormed(heap) && r in heap && depth < MAX_DEPTH && ShapeOf(heap[r]).Ok? && ShapeOf(heap[r]).value.ObjectShape?
      requires |path| == depth + 1 && path[depth] == r && Path(heap, path) && visiting == (set x | x in path)
      modifies this
      ensures visiting == old(visiting)
      ensures result == EncodeContents(heap, r, depth, visiting)
      decreases MAX_DEPTH - depth, 0, 1
    {
      var collected := CollectObjectKeys(r);
      if collected.Err? {
        return Err(collected.error);
      }
      var keys := collected.value;
      var members: seq<Member> := [];
      for item := 0 to |keys|
        invariant visiting == old(visiting)
        invariant EncodeMembers(heap, r, keys, item, depth, visiting) == Ok(members)
      {
        var next := EncodeMember(r, keys, item, members, depth, path);
        if next.Err? {
          return Err(next.error);
        }
        members := next.value;
      }
      result := Ok(JObject(members));
    }

    /** One turn of the loop of `encode_object`: one more member, or the error that ends it. */
    method EncodeMember(r: nat, keys: seq<string>, item: nat, members: seq<Member>, depth: nat, ghost path: seq<nat>)
      returns (result: Result<seq<Member>, EncodeError>)
      requires WellFormed(heap) && r in heap && depth < MAX_DEPTH && item < |keys|
      requires forall i :: 0 <= i < |keys| ==> String(keys[i]) in heap[r].entries
      requires |path| == depth + 1 && path[depth] == r && Path(heap, path) && visiting == (set x | x in path)
      requires EncodeMembers(heap, r, keys, item, depth, visiting) == Ok(members)
      modifies this
      ensures visiting == old(visiting)
      ensures result.Ok? ==> EncodeMembers(heap, r, keys, item + 1, depth, visiting) == result
      ensures result.Err? ==> EncodeMembers(heap, r, keys, |keys|, depth, visiting) == result
      decreases MAX_DEPTH - depth, 0, 0
    {
      ChildIsOnPath(heap, visiting, path, String(keys[item]));
      var encoded := EncodeValue(heap[r].entries[String(keys[item])], depth + 1, path);
      if encoded.Err? {
        MemberErrorIsFinal(heap, r, keys, item + 1, depth, visiting, |keys|);
        return Err(encoded.error);
      }
      result := Ok(members + [Member(keys[item], encoded.value)]);
    }
  }
}
