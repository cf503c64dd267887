/** The two round trips of the codec, and the depth at which they part. */
module JsonRoundTrip {
  import opened Numbers
  import opened LuaHeap
  import opened JsonTree
  import opened JsonEncode
  import opened JsonMeaning
  import opened JsonDecode
  import opened LuaMemory

  // ---- normal form -------------------------------------------------------

  /** Keys strictly ascending, hence no duplicates, and every integer in int64. */
  ghost predicate Canonical(j: Json)
    decreases j
  {
    match j
    case JInt(i) => i <= MAX_INTEGER
    case JArray(items) => forall i :: 0 <= i < |items| ==> Canonical(items[i])
    case JObject(members) =>
      Ascending(Keys(members)) && forall i :: 0 <= i < |members| ==> Canonical(members[i].value)
    case _ => true
  }

  lemma NamesOfLastValues(members: seq<Member>)
    ensures forall s :: s in LastValues(members) <==> s in Keys(members)
    decreases |members|
  {
    if members != [] {
      var last := |members| - 1;
      NamesOfLastValues(members[..last]);
      assert Keys(members) == Keys(members[..last]) + [members[last].key];
    }
  }

  /** A name is bound to its last occurrence. */
  lemma {:induction false} LastOccurrenceWins(members: seq<Member>, i: nat)
    requires i < |members|
    requires forall k :: i < k < |members| ==> members[k].key != members[i].key
    ensures members[i].key in LastValues(members)
    ensures LastValues(members)[members[i].key] == Normalize(members[i].value)
    decreases |members|
  {
    var last := |members| - 1;
    if i == last {
    } else {
      LastOccurrenceWins(members[..last], i);
    }
  }

  lemma AscendingIsDistinct(keys: seq<string>, i: nat, k: nat)
    requires Ascending(keys) && i < |keys| && k < |keys| && i != k
    ensures keys[i] != keys[k]
  {
    assert Before(keys[i], keys[k]) || Before(keys[k], keys[i]);
    BeforeIsAsymmetric(keys[i], keys[k]);
    BeforeIsAsymmetric(keys[k], keys[i]);
  }

  /** A canonical document is its own normal form. */
  lemma {:induction false} CanonicalIsNormal(j: Json)
    requires Canonical(j)
    ensures Normalize(j) == j
    decreases j
  {
    match j
    case JArray(items) =>
      forall i | 0 <= i < |items| ensures Normalize(items[i]) == items[i] {
        CanonicalIsNormal(items[i]);
      }
      assert NormalizeItems(items) == items;
    case JObject(members) =>
      var values := LastValues(members);
      var sorted := SortedMembers(values);
      NamesOfLastValues(members);
      AscendingIsUnique(Keys(members), Keys(sorted));
      forall i | 0 <= i < |members| ensures sorted[i] == members[i] {
        assert Keys(members)[i] == Keys(sorted)[i];
        forall k | i < k < |members| ensures members[k].key != members[i].key {
          AscendingIsDistinct(Keys(members), i, k);
        }
        LastOccurrenceWins(members, i);
        CanonicalIsNormal(members[i].value);
      }
      assert sorted == members;
    case _ =>
  }

  /** What a value of the heap unfolds to is canonical. */
  lemma {:induction false} UnfoldingIsCanonical(h: Heap, v: Value, j: Json)
    requires WellFormed(h) && Proper(h, v) && Unfolds(h, v, j)
    ensures Canonical(j)
    decreases j
  {
    match j
    case JArray(items) =>
      forall i | 0 <= i < |items| ensures Canonical(items[i]) {
        var k := Integer(i + 1);
        assert k in h[v.ref].entries;
        UnfoldingIsCanonical(h, h[v.ref].entries[k], items[i]);
      }
    case JObject(members) =>
      forall i | 0 <= i < |members| ensures Canonical(members[i].value) {
        UnfoldingIsCanonical(h, h[v.ref].entries[String(members[i].key)], members[i].value);
      }
    case _ =>
  }

  lemma {:induction false} ItemDepthBound(items: seq<Json>, bound: nat)
    requires forall i :: 0 <= i < |items| ==> Depth(items[i]) <= bound
    ensures DepthOfItems(items) <= bound
  {
    if items == [] {
    } else {
      assert forall i :: 0 <= i < |items[1..]| ==> items[1..][i] == items[i + 1];
      ItemDepthBound(items[1..], bound);
    }
  }

  lemma {:induction false} MemberDepthBound(members: seq<Member>, bound: nat)
    requires forall i :: 0 <= i < |members| ==> Depth(members[i].value) <= bound
    ensures DepthOfMembers(members) <= bound
  {
    if members == [] {
    } else {
      assert forall i :: 0 <= i < |members[1..]| ==> members[1..][i] == members[i + 1];
      MemberDepthBound(members[1..], bound);
    }
  }

  lemma {:induction false} LastValueIsNormalized(members: seq<Member>, s: string) returns (i: nat)
    requires s in LastValues(members)
    ensures i < |members| && members[i].key == s && LastValues(members)[s] == Normalize(members[i].value)
    decreases |members|
  {
    var last := |members| - 1;
    if members[last].key == s {
      return last;
    }
    i := LastValueIsNormalized(members[..last], s);
  }

  /** Normalizing never makes a document deeper. */
  lemma {:induction false} NormalizeKeepsDepth(j: Json)
    ensures Depth(Normalize(j)) <= Depth(j)
    decreases j
  {
    match j
    case JArray(items) =>
      forall i | 0 <= i < |items| ensures Depth(NormalizeItems(items)[i]) <= DepthOfItems(items) {
        NormalizeKeepsDepth(items[i]);
      }
      ItemDepthBound(NormalizeItems(items), DepthOfItems(items));
    case JObject(members) =>
      var sorted := SortedMembers(LastValues(members));
      forall i | 0 <= i < |sorted| ensures Depth(sorted[i].value) <= DepthOfMembers(members) {
        var k := LastValueIsNormalized(members, sorted[i].key);
        NormalizeKeepsDepth(members[k].value);
      }
      MemberDepthBound(sorted, DepthOfMembers(members));
    case _ =>
  }

  lemma {:induction false} LevelsBelowDepth(j: Json)
    ensures Levels(j) <= Depth(j)
    decreases j
  {
    match j
    case JArray(items) =>
      forall i | 0 <= i < |items| ensures Levels(items[i]) <= DepthOfItems(items) {
        LevelsBelowDepth(items[i]);
      }
      ItemLevelsBound(items, DepthOfItems(items));
    case JObject(members) =>
      forall i | 0 <= i < |members| ensures Levels(members[i].value) <= DepthOfMembers(members) {
        LevelsBelowDepth(members[i].value);
      }
      MemberLevelsBound(members, DepthOfMembers(members));
    case _ =>
  }

  // ---- decode, then encode -------------------------------------------------

  /** Whatever the memory accepts and builds, the encoder writes back as the normal form. */
  lemma DecodedEncodesToNormalForm(h: Heap, h': Heap, v: Value, j: Json)
    requires WellFormed(h') && Proper(h', v)
    requires Depth(j) <= MAX_DEPTH && Unfolds(NewTables(h, h'), v, Normalize(j))
    ensures Encode(h', v, 0, {}) == Ok(Normalize(j))
  {
    UnfoldsInLargerHeap(NewTables(h, h'), h', v, Normalize(j));
    NormalizeKeepsDepth(j);
    LevelsBelowDepth(Normalize(j));
    EncodeIsUnfolding(h', v, Normalize(j));
  }

  /** `encode(decode(j))` never fails on an accepted document. */
  method DecodeThenEncode(memory: Memory, j: Json) returns (result: Result<Json, EncodeError>, accepted: bool)
    requires memory.Valid()
    modifies memory
    ensures accepted <==> Depth(j) <= MAX_DEPTH
    ensures accepted ==> result == Ok(Normalize(j))
  {
    ghost var before := memory.heap;
    var decoded := DecodeValue(memory, j, 0);
    if decoded.Err? {
      return Err(UnsupportedType), false;
    }
    DecodedEncodesToNormalForm(before, memory.heap, decoded.value, j);
    var context := new EncodeContext(memory.heap);
    result := context.EncodeValue(decoded.value, 0, []);
    accepted := true;
  }

  // ---- encode, then decode ---------------------------------------------------

  /** `same` relates tables of equal keys whose values are equal or related. The
      array mark may differ only on a nonempty table with keys 1..n, which both
      sides write as an array. */
  ghost predicate AlikeTables(h: Heap, h': Heap, same: set<(nat, nat)>) {
    forall a, b :: (a, b) in same ==> a in h && b in h' && AlikePair(h, h', same, a, b)
  }

  ghost predicate AlikePair(h: Heap, h': Heap, same: set<(nat, nat)>, a: nat, b: nat)
    requires a in h && b in h'
  {
    var t, t' := h[a], h'[b];
    && (a == NULL <==> b == NULL)
    && t.entries.Keys == t'.entries.Keys
    && (t.marked == t'.marked || (t.entries != map[] && exists m :: DenseUpTo(t.entries, m)))
    && forall k :: k in t.entries ==> SameValue(same, t.entries[k], t'.entries[k])
  }

  ghost predicate UnfoldTogether(h: Heap, h': Heap, a: nat, b: nat) {
    exists j :: Unfolds(h, Table(a), j) && Unfolds(h', Table(b), j)
  }

  /** The pairs of tables with a common unfolding. */
  ghost function CommonUnfoldings(h: Heap, h': Heap): set<(nat, nat)> {
    set a, b | a in h && b in h' && UnfoldTogether(h, h', a, b) :: (a, b)
  }

  lemma ValuesUnfoldTogether(h: Heap, v: Value, h': Heap, v': Value, j: Json)
    requires Proper(h, v) && Proper(h', v') && v != Nil && v' != Nil
    requires Unfolds(h, v, j) && Unfolds(h', v', j)
    ensures SameValue(CommonUnfoldings(h, h'), v, v')
  {
    if v.Table? && v'.Table? {
      assert UnfoldTogether(h, h', v.ref, v'.ref);
    }
  }

  lemma SameArrayKeys(h: Heap, a: nat, h': Heap, b: nat, j: Json)
    requires j.JArray? && Unfolds(h, Table(a), j) && Unfolds(h', Table(b), j)
    ensures h[a].entries.Keys == h'[b].entries.Keys
    ensures exists m :: DenseUpTo(h[a].entries, m)
    ensures h[a].marked == h'[b].marked || h[a].entries != map[]
  {
    assert DenseUpTo(h[a].entries, |j.items|);
    assert forall k :: k in h[a].entries.Keys <==> k in h'[b].entries;
    assert j.items != [] ==> Integer(1) in h[a].entries;
  }

  lemma SameObjectKeys(h: Heap, a: nat, h': Heap, b: nat, j: Json)
    requires j.JObject? && Unfolds(h, Table(a), j) && Unfolds(h', Table(b), j)
    ensures h[a].entries.Keys == h'[b].entries.Keys
    ensures forall k :: k in h[a].entries ==> k.String? && k.s in Keys(j.members)
    ensures h[a].marked == h'[b].marked
  {
    forall k ensures k in h[a].entries.Keys <==> k in h'[b].entries.Keys {
      assert k.String? ==> k == String(k.s);
    }
  }

  lemma ChildrenUnfoldTogether(h: Heap, a: nat, h': Heap, b: nat, j: Json, k: Value) returns (child: Json)
    requires j.JArray? || j.JObject?
    requires Unfolds(h, Table(a), j) && Unfolds(h', Table(b), j) && k in h[a].entries && k in h'[b].entries
    ensures Unfolds(h, h[a].entries[k], child) && Unfolds(h', h'[b].entries[k], child)
  {
    if j.JArray? {
      child := j.items[k.i - 1];
    } else {
      SameObjectKeys(h, a, h', b, j);
      var i :| 0 <= i < |j.members| && Keys(j.members)[i] == k.s;
      child := j.members[i].value;
    }
  }

  lemma CommonUnfoldingIsAlike(h: Heap, a: nat, h': Heap, b: nat, j: Json)
    requires WellFormed(h) && WellFormed(h') && a in h && b in h'
    requires Unfolds(h, Table(a), j) && Unfolds(h', Table(b), j)
    ensures AlikePair(h, h', CommonUnfoldings(h, h'), a, b)
  {
    if j.JArray? {
      SameArrayKeys(h, a, h', b, j);
    } else if j.JObject? {
      SameObjectKeys(h, a, h', b, j);
    }
    assert h[a].entries.Keys == h'[b].entries.Keys;
    forall k | k in h[a].entries
      ensures SameValue(CommonUnfoldings(h, h'), h[a].entries[k], h'[b].entries[k])
    {
      assert k in h'[b].entries.Keys;
      EntriesUnfoldTogether(h, a, h', b, j, k);
    }
  }

  lemma EntriesUnfoldTogether(h: Heap, a: nat, h': Heap, b: nat, j: Json, k: Value)
    requires WellFormed(h) && WellFormed(h') && a in h && b in h'
    requires Unfolds(h, Table(a), j) && Unfolds(h', Table(b), j) && k in h[a].entries && k in h'[b].entries
    ensures SameValue(CommonUnfoldings(h, h'), h[a].entries[k], h'[b].entries[k])
  {
    if j.JArray? || j.JObject? {
      var child := ChildrenUnfoldTogether(h, a, h', b, j, k);
      EntryIsProper(h, a, k);
      EntryIsProper(h', b, k);
      ValuesUnfoldTogether(h, h[a].entries[k], h', h'[b].entries[k], child);
    }
  }

  lemma CommonUnfoldingsAreAlike(h: Heap, h': Heap)
    requires WellFormed(h) && WellFormed(h')
    ensures AlikeTables(h, h', CommonUnfoldings(h, h'))
  {
    var same := CommonUnfoldings(h, h');
    forall a, b | (a, b) in same ensures a in h && b in h' && AlikePair(h, h', same, a, b) {
      assert UnfoldTogether(h, h', a, b);
      var j :| Unfolds(h, Table(a), j) && Unfolds(h', Table(b), j);
      CommonUnfoldingIsAlike(h, a, h', b, j);
    }
  }

  /** `decode(encode(v))` equals `v` up to array marking, at every level. */
  lemma EncodedDecodesToAlike(h: Heap, v: Value, start: Heap, h': Heap, v': Value, j: Json)
    requires WellFormed(h) && Proper(h, v) && v != Nil
    requires Encode(h, v, 0, {}) == Ok(j)
    requires WellFormed(h') && Proper(h', v') && v' != Nil && Unfolds(NewTables(start, h'), v', Normalize(j))
    ensures AlikeTables(h, h', CommonUnfoldings(h, h')) && SameValue(CommonUnfoldings(h, h'), v, v')
  {
    EncodeIsUnfolding(h, v, j);
    UnfoldingIsCanonical(h, v, j);
    CanonicalIsNormal(j);
    UnfoldsInLargerHeap(NewTables(start, h'), h', v', j);
    ValuesUnfoldTogether(h, v, h', v', j);
    CommonUnfoldingsAreAlike(h, h');
  }

  datatype RoundTripError = NotEncoded(cause: EncodeError) | NotDecoded(reason: DecodeError)

  /** Encoding and then decoding succeeds exactly on values that unfold to a tree with
      no value, leaves included, deeper than 255, and then gives back an alike value. Only
      nil comes back as something else, as `json.null`. */
  method EncodeThenDecode(context: EncodeContext, v: Value, memory: Memory)
    returns (result: Result<Value, RoundTripError>, ghost same: set<(nat, nat)>)
    requires WellFormed(context.heap) && Proper(context.heap, v) && context.visiting == {} && memory.Valid()
    modifies context, memory
    ensures result.Ok? <==> exists j :: Unfolds(context.heap, v, j) && Depth(j) <= MAX_DEPTH
    ensures result.Err? ==> (result.error.NotEncoded? <==> !exists j :: Unfolds(context.heap, v, j) && Levels(j) <= MAX_DEPTH)
    ensures result.Ok? && v == Nil ==> result.value == Table(NULL)
    ensures result.Ok? && v != Nil ==> AlikeTables(context.heap, memory.heap, same) && SameValue(same, v, result.value)
  {
    ghost var start := memory.heap;
    var encoded := context.EncodeValue(v, 0, []);
    EncodedWithinDepth(context.heap, v);
    same := {};
    if encoded.Err? {
      return Err(NotEncoded(encoded.error)), same;
    }
    var decoded := DecodeValue(memory, encoded.value, 0);
    if decoded.Err? {
      return Err(NotDecoded(decoded.error)), same;
    }
    result := Ok(decoded.value);
    if v != Nil {
      same := CommonUnfoldings(context.heap, memory.heap);
      EncodedDecodesToAlike(context.heap, v, start, memory.heap, decoded.value, encoded.value);
    }
  }

  /** What the encoder accepts, in terms of the unfolding. */
  lemma EncodedWithinDepth(h: Heap, v: Value)
    requires WellFormed(h) && Proper(h, v)
    ensures Encode(h, v, 0, {}).Ok? <==> exists j :: Unfolds(h, v, j) && Levels(j) <= MAX_DEPTH
    ensures (exists j :: Unfolds(h, v, j) && Depth(j) <= MAX_DEPTH)
      <==> Encode(h, v, 0, {}).Ok? && Depth(Encode(h, v, 0, {}).value) <= MAX_DEPTH
  {
    forall j | Unfolds(h, v, j) && Levels(j) <= MAX_DEPTH ensures Encode(h, v, 0, {}) == Ok(j) {
      EncodeIsUnfolding(h, v, j);
    }
    forall j | Unfolds(h, v, j) && Depth(j) <= MAX_DEPTH ensures Levels(j) <= MAX_DEPTH {
      LevelsBelowDepth(j);
    }
    if Encode(h, v, 0, {}).Ok? {
      EncodeIsUnfolding(h, v, Encode(h, v, 0, {}).value);
    }
  }

  // ---- where the limits differ -------------------------------------------------

  /** An integer inside `n` nested arrays. */
  function Nest(n: nat): (j: Json)
    ensures Levels(j) == n && Depth(j) == n + 1
  {
    if n == 0 then JInt(7) else
      var inner := Nest(n - 1);
      assert LevelsOfItems([inner]) == Max(Levels(inner), LevelsOfItems([]));
      assert DepthOfItems([inner]) == Max(Depth(inner), DepthOfItems([]));
      JArray([inner])
  }

  /** Table r, for 1 <= r <= n, holds table r - 1; table 1 holds the integer. */
  ghost function ChainHeap(n: nat): (h: Heap)
    ensures WellFormed(h) && (forall r :: r in h <==> 0 <= r <= n)
  {
    if n == 0 then map[NULL := NULL_DATA]
    else ChainHeap(n - 1)[n := TableData(map[Integer(1) := if n == 1 then Integer(7) else Table(n - 1)], true, false)]
  }

  lemma {:induction false} ChainUnfolds(n: nat)
    requires 1 <= n
    ensures Unfolds(ChainHeap(n), Table(n), Nest(n))
  {
    var h := ChainHeap(n);
    if n == 1 {
      LinkUnfolds(h, n, Integer(7), Nest(0));
    } else {
      ChainUnfolds(n - 1);
      UnfoldsInLargerHeap(ChainHeap(n - 1), h, Table(n - 1), Nest(n - 1));
      LinkUnfolds(h, n, Table(n - 1), Nest(n - 1));
    }
  }

  /** A marked table with one item. */
  lemma LinkUnfolds(h: Heap, r: nat, v: Value, j: Json)
    requires r in h && r != NULL && h[r] == TableData(map[Integer(1) := v], true, false)
    requires Unfolds(h, v, j)
    ensures Unfolds(h, Table(r), JArray([j]))
  {
    assert DenseUpTo(h[r].entries, 1);
  }

  /** The limits are asymmetric: 256 nested tables around a leaf encode, and the
      document they encode to is refused by the memory. */
  lemma LeafAtDepth256IsEncodedButNotDecoded()
    ensures Encode(ChainHeap(256), Table(256), 0, {}) == Ok(Nest(256))
    ensures Depth(Nest(256)) == MAX_DEPTH + 1
  {
    ChainUnfolds(256);
    EncodeIsUnfolding(ChainHeap(256), Table(256), Nest(256));
  }
}
