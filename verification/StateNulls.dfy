/** `copy` turns `json.null` into a plain empty table, which encodes as an empty object. */
module StateNulls {
  import opened LuaHeap
  import opened LuaMemory
  import opened JsonTree
  import opened JsonEncode
  import opened JsonMeaning
  import opened JsonDecode
  import opened StateTree
  import opened StateCopy

  /** The document with an empty object for each null. */
  function NullsEmptied(j: Json): Json {
    match j
    case JNull => JObject([])
    case JArray(items) => JArray(seq(|items|, i requires 0 <= i < |items| => NullsEmptied(items[i])))
    case JObject(members) =>
      JObject(seq(|members|, i requires 0 <= i < |members| => Member(members[i].key, NullsEmptied(members[i].value))))
    case _ => j
  }

  predicate NullFree(j: Json) {
    match j
    case JNull => false
    case JArray(items) => forall i :: 0 <= i < |items| ==> NullFree(items[i])
    case JObject(members) => forall i :: 0 <= i < |members| ==> NullFree(members[i].value)
    case _ => true
  }

  lemma {:induction false} NullsEmptiedIsSameIff(j: Json)
    ensures NullsEmptied(j) == j <==> NullFree(j)
  {
    match j
    case JArray(items) =>
      forall i | 0 <= i < |items| ensures NullsEmptied(items[i]) == items[i] <==> NullFree(items[i]) {
        NullsEmptiedIsSameIff(items[i]);
      }
      var emptied := NullsEmptied(j).items;
      assert emptied == items <==> forall i :: 0 <= i < |items| ==> emptied[i] == items[i];
    case JObject(members) =>
      forall i | 0 <= i < |members|
        ensures NullsEmptied(members[i].value) == members[i].value <==> NullFree(members[i].value)
      {
        NullsEmptiedIsSameIff(members[i].value);
      }
      var emptied := NullsEmptied(j).members;
      assert emptied == members <==> forall i :: 0 <= i < |members| ==> emptied[i] == members[i];
    case _ =>
  }

  /** A value and its copy, which have the same tree, unfold alike but for the nulls. */
  lemma {:induction false} CopyUnfolds(h: Heap, v: Value, h': Heap, v': Value, t: Tree, j: Json)
    requires WellFormed(h) && NULL !in h' && v != Nil
    requires Denotes(h, v, t) && Denotes(h', v', t) && Unfolds(h, v, j)
    ensures Unfolds(h', v', NullsEmptied(j))
    decreases j
  {
    match j
    case JNull =>
      assert h'[v'.ref].entries.Keys == {};
    case JArray(items) => CopiedArrayUnfolds(h, v.ref, h', v'.ref, t, items);
    case JObject(members) => CopiedObjectUnfolds(h, v.ref, h', v'.ref, t, members);
    case _ =>
  }

  lemma ChildIsCopied(h: Heap, r: nat, h': Heap, r': nat, t: Tree, k: Value)
    requires WellFormed(h) && Denotes(h, Table(r), t) && Denotes(h', Table(r'), t)
    ensures k in h[r].entries <==> k in h'[r'].entries
    ensures k in h[r].entries ==>
      && h[r].entries[k] != Nil && k in t.children
      && Denotes(h, h[r].entries[k], t.children[k]) && Denotes(h', h'[r'].entries[k], t.children[k])
  {
    assert k in h[r].entries.Keys <==> k in t.children.Keys;
    assert k in h'[r'].entries.Keys <==> k in t.children.Keys;
    if k in h[r].entries {
      EntryIsProper(h, r, k);
    }
  }

  lemma {:induction false} CopiedArrayUnfolds(h: Heap, r: nat, h': Heap, r': nat, t: Tree, items: seq<Json>)
    requires WellFormed(h) && NULL !in h'
    requires Denotes(h, Table(r), t) && Denotes(h', Table(r'), t) && Unfolds(h, Table(r), JArray(items))
    ensures Unfolds(h', Table(r'), NullsEmptied(JArray(items)))
    decreases JArray(items), 0
  {
    var entries' := h'[r'].entries;
    var emptied := NullsEmptied(JArray(items)).items;
    forall k | k in entries' ensures k in h[r].entries && Unfolds(h', entries'[k], emptied[k.i - 1]) {
      ChildIsCopied(h, r, h', r', t, k);
      CopyUnfolds(h, h[r].entries[k], h', entries'[k], t.children[k], items[k.i - 1]);
    }
    assert h[r].entries.Keys == t.children.Keys == entries'.Keys;
    assert DenseUpTo(entries', |items|);
  }

  lemma {:induction false} CopiedObjectUnfolds(h: Heap, r: nat, h': Heap, r': nat, t: Tree, members: seq<Member>)
    requires WellFormed(h) && NULL !in h'
    requires Denotes(h, Table(r), t) && Denotes(h', Table(r'), t) && Unfolds(h, Table(r), JObject(members))
    ensures Unfolds(h', Table(r'), NullsEmptied(JObject(members)))
    decreases JObject(members), 0
  {
    var entries' := h'[r'].entries;
    var emptied := NullsEmptied(JObject(members)).members;
    forall i | 0 <= i < |members|
      ensures String(members[i].key) in entries' && Unfolds(h', entries'[String(members[i].key)], emptied[i].value)
    {
      var k := String(members[i].key);
      ChildIsCopied(h, r, h', r', t, k);
      CopyUnfolds(h, h[r].entries[k], h', entries'[k], t.children[k], members[i].value);
    }
    assert Keys(emptied) == Keys(members);
    assert h[r].entries.Keys == t.children.Keys == entries'.Keys;
    SameStringKeys(h[r].entries, entries', Keys(members));
  }

  lemma SameStringKeys(entries: map<Value, Value>, entries': map<Value, Value>, keys: seq<string>)
    requires entries.Keys == entries'.Keys
    requires (forall k :: k in entries ==> k.String?) && forall s: string :: String(s) in entries <==> s in keys
    ensures (forall k :: k in entries' ==> k.String?) && forall s: string :: String(s) in entries' <==> s in keys
  {
    assert forall k :: k in entries' <==> k in entries.Keys;
  }

  /** Copying keeps what a value encodes to exactly when there is no null in it. */
  lemma CopyKeepsEncodingIff(h: Heap, v: Value, h': Heap, v': Value, j: Json)
    requires WellFormed(h) && Proper(h, v) && v != Nil && Encode(h, v, 0, {}) == Ok(j)
    requires WellFormed(h') && Proper(h', v') && Acyclic(h, v) && Denotes(Fresh(h, h'), v', TreeOf(h, v))
    ensures Encode(h', v', 0, {}) == Ok(j) <==> NullFree(j)
    ensures Encode(h', v', 0, {}).Ok? ==> Encode(h', v', 0, {}).value == NullsEmptied(j)
  {
    EncodeIsUnfolding(h, v, j);
    var copied := NullsEmptied(j);
    CopyUnfolds(h, v, Fresh(h, h'), v', TreeOf(h, v), j);
    UnfoldsInLargerHeap(Fresh(h, h'), h', v', copied);
    NullsEmptiedIsSameIff(j);
    EncodeIsUnfolding(h', v', copied);
    if Encode(h', v', 0, {}).Ok? {
      var found := Encode(h', v', 0, {}).value;
      EncodeIsUnfolding(h', v', found);
      UnfoldingIsUnique(h', v', found, copied);
    }
  }
}
