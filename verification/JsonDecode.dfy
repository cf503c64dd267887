/** The JSON decoder, which builds tables in the heap, and the two round trips. */
module JsonDecode {
  import opened Numbers
  import opened LuaHeap
  import opened JsonTree
  import opened JsonEncode
  import opened JsonMeaning
  import opened LuaMemory

  datatype DecodeError = DocumentTooDeep

  const FLOAT_SPACING: nat := 2048

  /** The double nearest to an integer in 2^63 .. 2^64, where doubles are 2048 apart;
      a tie goes to the even multiple. */
  function NearestDouble(n: nat): (r: nat)
  {
    var q, rest := n / FLOAT_SPACING, n % FLOAT_SPACING;
    if rest < FLOAT_SPACING / 2 || (rest == FLOAT_SPACING / 2 && q % 2 == 0) then q * FLOAT_SPACING
    else (q + 1) * FLOAT_SPACING
  }

  /** The nearest multiple of the spacing, and the even one of two equally near. */
  lemma NearestDoubleMeaning(n: nat, multiple: int)
    ensures NearestDouble(n) % 2048 == 0
    ensures -1024 <= NearestDouble(n) - n <= 1024
    ensures NearestDouble(n) - n == 1024 || n - NearestDouble(n) == 1024 ==> NearestDouble(n) / 2048 % 2 == 0
    ensures multiple % 2048 == 0 && -1024 < multiple - n < 1024 ==> multiple == NearestDouble(n)
  {
    var q, rest := n / 2048, n % 2048;
    var m := if rest < 1024 || (rest == 1024 && q % 2 == 0) then q else q + 1;
    assert NearestDouble(n) == 2048 * m && n == 2048 * q + rest;
    Multiples(m);
    if multiple % 2048 == 0 {
      assert multiple == 2048 * (multiple / 2048);
    }
  }

  lemma Multiples(m: nat)
    ensures 2048 * m % 2048 == 0 && 2048 * m / 2048 == m
  {
  }

  // ---- the document the decoded value stands for -------------------------

  /** `j` with object keys sorted, the last of duplicate names kept, and integers
      above int64 turned into reals. */
  ghost function Normalize(j: Json): Json
    decreases j, 1
  {
    match j
    case JInt(i) => if i <= MAX_INTEGER then j else JReal(NearestDouble(i) as real)
    case JArray(items) => JArray(NormalizeItems(items))
    case JObject(members) => JObject(SortedMembers(LastValues(members)))
    case _ => j
  }

  ghost function NormalizeItems(items: seq<Json>): (r: seq<Json>)
    ensures |r| == |items|
    ensures forall i :: 0 <= i < |items| ==> r[i] == Normalize(items[i])
    decreases items, 0
  {
    if items == [] then [] else [Normalize(items[0])] + NormalizeItems(items[1..])
  }

  /** What each name is bound to after all members have been stored in order. */
  ghost function LastValues(members: seq<Member>): (r: map<string, Json>)
    decreases members, 0
  {
    if members == [] then map[]
    else
      var last := |members| - 1;
      LastValues(members[..last])[members[last].key := Normalize(members[last].value)]
  }

  ghost function SortedNames(names: set<string>): (r: seq<string>)
    ensures Ascending(r)
    ensures forall s :: s in r <==> s in names
    decreases |names|
  {
    if names == {} then []
    else
      var s :| s in names;
      InsertKeepsAscending(s, SortedNames(names - {s}));
      InsertKey(s, SortedNames(names - {s}))
  }

  ghost function SortedMembers(values: map<string, Json>): (r: seq<Member>)
    ensures Keys(r) == SortedNames(values.Keys)
    ensures forall i :: 0 <= i < |r| ==> r[i].key in values && r[i].value == values[r[i].key]
  {
    var names := SortedNames(values.Keys);
    assert forall i :: 0 <= i < |names| ==> names[i] in names;
    seq(|names|, i requires 0 <= i < |names| => Member(names[i], values[names[i]]))
  }

  // ---- heaps that only grow ------------------------------------------------

  lemma {:induction false} UnfoldsInLargerHeap(h: Heap, h': Heap, v: Value, j: Json)
    requires Extends(h, h') && Unfolds(h, v, j)
    ensures Unfolds(h', v, j)
    decreases j
  {
    match j
    case JArray(items) =>
      var entries := h[v.ref].entries;
      forall k | k in entries ensures Unfolds(h', entries[k], items[k.i - 1]) {
        UnfoldsInLargerHeap(h, h', entries[k], items[k.i - 1]);
      }
    case JObject(members) =>
      var entries := h[v.ref].entries;
      forall i | 0 <= i < |members| ensures Unfolds(h', entries[String(members[i].key)], members[i].value) {
        UnfoldsInLargerHeap(h, h', entries[String(members[i].key)], members[i].value);
      }
    case _ =>
  }

  ghost predicate ArrayPrefix(h: Heap, entries: map<Value, Value>, items: seq<Json>, count: nat) {
    && count <= |items|
    && DenseUpTo(entries, count)
    && forall k :: k in entries ==> Unfolds(h, entries[k], Normalize(items[k.i - 1]))
  }

  ghost predicate ObjectPrefix(h: Heap, entries: map<Value, Value>, values: map<string, Json>) {
    true == (
      && StringKeys(entries)
      && (forall s :: String(s) in entries <==> s in values)
      && forall s :: s in values ==> String(s) in entries && Unfolds(h, entries[String(s)], values[s]))
  }

  lemma ArrayIsBuilt(h: Heap, r: nat, items: seq<Json>)
    requires r in h && r != NULL && h[r].marked && ArrayPrefix(h, h[r].entries, items, |items|)
    ensures Unfolds(h, Table(r), Normalize(JArray(items)))
  {
  }

  lemma ObjectIsBuilt(h: Heap, r: nat, members: seq<Member>)
    requires r in h && r != NULL && !h[r].marked && ObjectPrefix(h, h[r].entries, LastValues(members))
    ensures Unfolds(h, Table(r), Normalize(JObject(members)))
  {
    var values := LastValues(members);
    var sorted := SortedMembers(values);
    var names := SortedNames(values.Keys);
    forall s: string ensures String(s) in h[r].entries <==> s in Keys(sorted) {
      assert s in names <==> s in values.Keys;
    }
    forall i | 0 <= i < |sorted|
      ensures String(sorted[i].key) in h[r].entries && Unfolds(h, h[r].entries[String(sorted[i].key)], sorted[i].value)
    {
      assert sorted[i].key in values;
    }
  }

  lemma PrefixInLargerHeap(h: Heap, h': Heap, entries: map<Value, Value>, items: seq<Json>, count: nat)
    requires Extends(h, h') && ArrayPrefix(h, entries, items, count)
    ensures ArrayPrefix(h', entries, items, count)
  {
    forall k | k in entries ensures Unfolds(h', entries[k], Normalize(items[k.i - 1])) {
      UnfoldsInLargerHeap(h, h', entries[k], Normalize(items[k.i - 1]));
    }
  }

  lemma ObjectPrefixInLargerHeap(h: Heap, h': Heap, entries: map<Value, Value>, values: map<string, Json>)
    requires Extends(h, h') && ObjectPrefix(h, entries, values)
    ensures ObjectPrefix(h', entries, values)
  {
    forall s | s in values ensures Unfolds(h', entries[String(s)], values[s]) {
      UnfoldsInLargerHeap(h, h', entries[String(s)], values[s]);
    }
  }

  /** One decoded item, stored at the next index. */
  lemma ArrayStep(start: Heap, h: Heap, h': Heap, r: nat, items: seq<Json>, index: nat, v: Value)
    requires NULL in start && Extends(start, h) && Extends(h, h') && r in h && r !in start && index < |items|
    requires ArrayPrefix(Inner(start, h, r), h[r].entries, items, index)
    requires Unfolds(NewTables(h, h'), v, Normalize(items[index]))
    ensures ArrayPrefix(Inner(start, h', r), h[r].entries[Integer(index + 1) := v], items, index + 1)
  {
    PrefixInLargerHeap(Inner(start, h, r), Inner(start, h', r), h[r].entries, items, index);
    UnfoldsInLargerHeap(NewTables(h, h'), Inner(start, h', r), v, Normalize(items[index]));
  }

  lemma ObjectStep(start: Heap, h: Heap, h': Heap, r: nat, members: seq<Member>, index: nat, v: Value)
    requires NULL in start && Extends(start, h) && Extends(h, h') && r in h && r !in start && index < |members|
    requires ObjectPrefix(Inner(start, h, r), h[r].entries, LastValues(members[..index]))
    requires Unfolds(NewTables(h, h'), v, Normalize(members[index].value))
    ensures ObjectPrefix(Inner(start, h', r), h[r].entries[String(members[index].key) := v], LastValues(members[..index + 1]))
  {
    ObjectPrefixInLargerHeap(Inner(start, h, r), Inner(start, h', r), h[r].entries, LastValues(members[..index]));
    UnfoldsInLargerHeap(NewTables(h, h'), Inner(start, h', r), v, Normalize(members[index].value));
    LastValuesOneMore(members, index);
    ObjectPrefixExtended(Inner(start, h', r), h[r].entries, LastValues(members[..index]), members[index].key, v,
                         Normalize(members[index].value));
  }

  lemma ObjectPrefixExtended(h: Heap, entries: map<Value, Value>, values: map<string, Json>, key: string, v: Value, j: Json)
    requires ObjectPrefix(h, entries, values) && Unfolds(h, v, j)
    ensures ObjectPrefix(h, entries[String(key) := v], values[key := j])
  {
    var entries', values' := entries[String(key) := v], values[key := j];
    assert forall s: string :: s != key ==> (String(s) in entries' <==> String(s) in entries);
    forall s | s in values' ensures String(s) in entries' && Unfolds(h, entries'[String(s)], values'[s]) {
      assert s != key ==> s in values && entries'[String(s)] == entries[String(s)];
    }
  }

  // ---- the traversal ---------------------------------------------------------

  method DecodeValue(memory: Memory, j: Json, depth: nat) returns (result: Result<Value, DecodeError>)
    requires memory.Valid() && depth <= MAX_DEPTH
    modifies memory
    ensures memory.Valid() && memory.next >= old(memory.next) && Extends(old(memory.heap), memory.heap)
    ensures result.Ok? <==> depth + Depth(j) <= MAX_DEPTH
    ensures result.Ok? ==>
      && Proper(memory.heap, result.value) && result.value != Nil
      && Unfolds(NewTables(old(memory.heap), memory.heap), result.value, Normalize(j))
    decreases j, 1
  {
    if depth >= MAX_DEPTH {
      return Err(DocumentTooDeep);
    }
    match j {
      case JNull => result := Ok(Table(NULL));
      case JBool(b) => result := Ok(Boolean(b));
      case JInt(i) =>
        if i <= MAX_INTEGER {
          result := Ok(Integer(i));
        } else {
          result := Ok(Number(Finite(NearestDouble(i) as real)));
        }
      case JReal(r) => result := Ok(Number(Finite(r)));
      case JString(s) => result := Ok(String(s));
      case JArray(items) => result := DecodeArray(memory, items, depth);
      case JObject(members) => result := DecodeObject(memory, members, depth);
    }
  }

  method DecodeArray(memory: Memory, items: seq<Json>, depth: nat) returns (result: Result<Value, DecodeError>)
    requires memory.Valid() && depth < MAX_DEPTH
    modifies memory
    ensures memory.Valid() && memory.next >= old(memory.next) && Extends(old(memory.heap), memory.heap)
    ensures result.Ok? <==> depth + 1 + DepthOfItems(items) <= MAX_DEPTH
    ensures result.Ok? ==>
      && Proper(memory.heap, result.value) && result.value != Nil
      && Unfolds(NewTables(old(memory.heap), memory.heap), result.value, Normalize(JArray(items)))
    decreases items, 0
  {
    var r := memory.CreateTable(true);
    for index := 0 to |items|
      invariant memory.Valid() && memory.next > r && r in memory.heap && Extends(old(memory.heap), memory.heap) && r !in old(memory.heap)
      invariant memory.heap[r].marked && ArrayPrefix(Inner(old(memory.heap), memory.heap, r), memory.heap[r].entries, items, index)
      invariant index > 0 ==> depth + 1 + DepthOfItems(items[..index]) <= MAX_DEPTH
    {
      DepthOfOneMoreItem(items, index);
      ghost var h := memory.heap;
      var item := DecodeValue(memory, items[index], depth + 1);
      if item.Err? {
        return Err(item.error);
      }
      StoreItem(memory, r, items, index, item.value, old(memory.heap), h);
    }
    assert items[..|items|] == items;
    PrefixInLargerHeap(Inner(old(memory.heap), memory.heap, r), NewTables(old(memory.heap), memory.heap), memory.heap[r].entries, items, |items|);
    ArrayIsBuilt(NewTables(old(memory.heap), memory.heap), r, items);
    result := Ok(Table(r));
  }

  method DecodeObject(memory: Memory, members: seq<Member>, depth: nat) returns (result: Result<Value, DecodeError>)
    requires memory.Valid() && depth < MAX_DEPTH
    modifies memory
    ensures memory.Valid() && memory.next >= old(memory.next) && Extends(old(memory.heap), memory.heap)
    ensures result.Ok? <==> depth + 1 + DepthOfMembers(members) <= MAX_DEPTH
    ensures result.Ok? ==>
      && Proper(memory.heap, result.value) && result.value != Nil
      && Unfolds(NewTables(old(memory.heap), memory.heap), result.value, Normalize(JObject(members)))
    decreases members, 0
  {
    var r := memory.CreateTable(false);
    for index := 0 to |members|
      invariant memory.Valid() && memory.next > r && r in memory.heap && Extends(old(memory.heap), memory.heap) && r !in old(memory.heap)
      invariant !memory.heap[r].marked && ObjectPrefix(Inner(old(memory.heap), memory.heap, r), memory.heap[r].entries, LastValues(members[..index]))
      invariant index > 0 ==> depth + 1 + DepthOfMembers(members[..index]) <= MAX_DEPTH
    {
      DepthOfOneMoreMember(members, index);
      ghost var h := memory.heap;
      var value := DecodeValue(memory, members[index].value, depth + 1);
      if value.Err? {
        return Err(value.error);
      }
      StoreMember(memory, r, members, index, value.value, old(memory.heap), h);
    }
    assert members[..|members|] == members;
    ObjectPrefixInLargerHeap(Inner(old(memory.heap), memory.heap, r), NewTables(old(memory.heap), memory.heap), memory.heap[r].entries, LastValues(members));
    ObjectIsBuilt(NewTables(old(memory.heap), memory.heap), r, members);
    result := Ok(Table(r));
  }

  method StoreItem(memory: Memory, r: nat, items: seq<Json>, index: nat, v: Value, ghost start: Heap, ghost h: Heap)
    requires memory.Valid() && NULL in start && Extends(start, h) && Extends(h, memory.heap) && r in h && r !in start
    requires index < |items| && v != Nil && Proper(memory.heap, v)
    requires ArrayPrefix(Inner(start, h, r), h[r].entries, items, index)
    requires Unfolds(NewTables(h, memory.heap), v, Normalize(items[index]))
    modifies memory`heap
    ensures memory.Valid() && Extends(start, memory.heap) && r in memory.heap
    ensures memory.heap[r].marked == h[r].marked
    ensures ArrayPrefix(Inner(start, memory.heap, r), memory.heap[r].entries, items, index + 1)
  {
    ghost var h' := memory.heap;
    ArrayStep(start, h, h', r, items, index, v);
    memory.RawSet(r, Integer(index + 1), v);
    InnerUnchanged(start, h', r, memory.heap[r]);
  }

  method StoreMember(memory: Memory, r: nat, members: seq<Member>, index: nat, v: Value, ghost start: Heap, ghost h: Heap)
    requires memory.Valid() && NULL in start && Extends(start, h) && Extends(h, memory.heap) && r in h && r !in start
    requires index < |members| && v != Nil && Proper(memory.heap, v)
    requires ObjectPrefix(Inner(start, h, r), h[r].entries, LastValues(members[..index]))
    requires Unfolds(NewTables(h, memory.heap), v, Normalize(members[index].value))
    modifies memory`heap
    ensures memory.Valid() && Extends(start, memory.heap) && r in memory.heap
    ensures memory.heap[r].marked == h[r].marked
    ensures ObjectPrefix(Inner(start, memory.heap, r), memory.heap[r].entries, LastValues(members[..index + 1]))
  {
    ghost var h' := memory.heap;
    ObjectStep(start, h, h', r, members, index, v);
    memory.RawSet(r, String(members[index].key), v);
    InnerUnchanged(start, h', r, memory.heap[r]);
  }

  lemma {:induction false} DepthOfOneMoreItem(items: seq<Json>, index: nat)
    requires index < |items|
    ensures DepthOfItems(items[..index + 1]) == Max(DepthOfItems(items[..index]), Depth(items[index]))
    ensures DepthOfItems(items[..index + 1]) <= DepthOfItems(items)
  {
    if index == 0 {
    } else {
      DepthOfOneMoreItem(items[1..], index - 1);
      assert items[1..][..index] == items[..index + 1][1..];
      assert items[1..][..index - 1] == items[..index][1..];
    }
  }

  lemma {:induction false} DepthOfOneMoreMember(members: seq<Member>, index: nat)
    requires index < |members|
    ensures DepthOfMembers(members[..index + 1]) == Max(DepthOfMembers(members[..index]), Depth(members[index].value))
    ensures DepthOfMembers(members[..index + 1]) <= DepthOfMembers(members)
  {
    if index == 0 {
    } else {
      DepthOfOneMoreMember(members[1..], index - 1);
      assert members[1..][..index] == members[..index + 1][1..];
      assert members[1..][..index - 1] == members[..index][1..];
    }
  }

  lemma LastValuesOneMore(members: seq<Member>, index: nat)
    requires index < |members|
    ensures LastValues(members[..index + 1]) ==
            LastValues(members[..index])[members[index].key := Normalize(members[index].value)]
  {
    assert members[..index + 1][..index] == members[..index];
  }
}
