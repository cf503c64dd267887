/** What the encoder computes: the tree unfolding of its argument, and nothing else. */
module JsonMeaning {
  import opened LuaHeap
  import opened JsonTree
  import opened JsonEncode

  // ---- success means the unfolding ---------------------------------------

  lemma {:induction false} EncodeIsSound(h: Heap, v: Value, j: Json, depth: nat, visiting: set<nat>)
    requires WellFormed(h) && Proper(h, v) && depth <= MAX_DEPTH
    requires Encode(h, v, depth, visiting) == Ok(j)
    ensures Unfolds(h, v, j) && depth + Levels(j) <= MAX_DEPTH
    decreases j, 1
  {
    if v.Table? && v.ref != NULL {
      match ShapeOf(h[v.ref]).value {
        case ArrayShape(n) => ArrayIsSound(h, v.ref, n, j, depth, visiting + {v.ref});
        case ObjectShape(_) => ObjectIsSound(h, v.ref, j, depth, visiting + {v.ref});
      }
    }
  }

  lemma {:induction false} ArrayIsSound(h: Heap, r: nat, n: nat, j: Json, depth: nat, visiting: set<nat>)
    requires WellFormed(h) && r in h && r != NULL && depth < MAX_DEPTH && ShapeOf(h[r]) == Ok(ArrayShape(n))
    requires EncodeContents(h, r, depth, visiting) == Ok(j)
    ensures Unfolds(h, Table(r), j) && depth + Levels(j) <= MAX_DEPTH
    decreases j, 0
  {
    var entries, items := h[r].entries, j.items;
    ItemCount(h, r, n, n, depth, visiting);
    ItemsAreChildren(h, r, items, n, depth, visiting);
    forall i | 0 <= i < n
      ensures Integer(i + 1) in entries && Unfolds(h, entries[Integer(i + 1)], items[i])
      ensures Levels(items[i]) <= MAX_DEPTH - depth - 1
    {
      assert ItemEncodes(h, r, i, items[i], depth, visiting);
      EncodeIsSound(h, entries[Integer(i + 1)], items[i], depth + 1, visiting);
    }
    forall k | k in entries ensures Unfolds(h, entries[k], items[k.i - 1]) {
      assert k == Integer(k.i - 1 + 1);
    }
    ItemLevelsBound(items, MAX_DEPTH - depth - 1);
  }

  lemma {:induction false} ObjectIsSound(h: Heap, r: nat, j: Json, depth: nat, visiting: set<nat>)
    requires WellFormed(h) && r in h && r != NULL && depth < MAX_DEPTH
    requires ShapeOf(h[r]).Ok? && ShapeOf(h[r]).value.ObjectShape?
    requires EncodeContents(h, r, depth, visiting) == Ok(j)
    ensures Unfolds(h, Table(r), j) && depth + Levels(j) <= MAX_DEPTH
    decreases j, 0
  {
    var entries, members := h[r].entries, j.members;
    var keys := AscendingKeys(entries);
    MemberCount(h, r, keys, |keys|, depth, visiting);
    MembersAreChildren(h, r, keys, members, depth, visiting);
    forall i | 0 <= i < |members|
      ensures members[i].key == keys[i] && Unfolds(h, entries[String(keys[i])], members[i].value)
      ensures Levels(members[i].value) <= MAX_DEPTH - depth - 1
    {
      MemberIsSound(h, r, keys[i], members[i], depth, visiting);
    }
    assert Keys(members) == keys;
    MemberLevelsBound(members, MAX_DEPTH - depth - 1);
  }

  lemma {:induction false} MemberIsSound(h: Heap, r: nat, key: string, m: Member, depth: nat, visiting: set<nat>)
    requires WellFormed(h) && r in h && depth < MAX_DEPTH && String(key) in h[r].entries
    requires MemberEncodes(h, r, key, m, depth, visiting)
    ensures m.key == key && Unfolds(h, h[r].entries[String(key)], m.value)
    ensures Levels(m.value) <= MAX_DEPTH - depth - 1
    decreases m.value, 2
  {
    EntryIsProper(h, r, String(key));
    EncodeIsSound(h, h[r].entries[String(key)], m.value, depth + 1, visiting);
  }

  lemma {:induction false} ItemLevelsBound(items: seq<Json>, bound: nat)
    requires forall i :: 0 <= i < |items| ==> Levels(items[i]) <= bound
    ensures LevelsOfItems(items) <= bound
  {
    if items == [] {
    } else {
      assert forall i :: 0 <= i < |items[1..]| ==> items[1..][i] == items[i + 1];
      ItemLevelsBound(items[1..], bound);
    }
  }

  lemma {:induction false} MemberLevelsBound(members: seq<Member>, bound: nat)
    requires forall i :: 0 <= i < |members| ==> Levels(members[i].value) <= bound
    ensures LevelsOfMembers(members) <= bound
  {
    if members == [] {
    } else {
      assert forall i :: 0 <= i < |members[1..]| ==> members[1..][i] == members[i + 1];
      MemberLevelsBound(members[1..], bound);
    }
  }

  // ---- an unfolding of bounded nesting is always found --------------------

  /** Every table being visited unfolds to a strictly taller tree. */
  ghost predicate Taller(h: Heap, visiting: set<nat>, levels: nat) {
    forall a :: a in visiting ==> HasTaller(h, a, levels)
  }

  ghost predicate HasTaller(h: Heap, a: nat, levels: nat) {
    exists j :: Unfolds(h, Table(a), j) && Levels(j) > levels
  }

  lemma NotVisiting(h: Heap, r: nat, j: Json, visiting: set<nat>)
    requires Unfolds(h, Table(r), j) && Taller(h, visiting, Levels(j))
    ensures r !in visiting
  {
    if HasTaller(h, r, Levels(j)) {
      var j' :| Unfolds(h, Table(r), j') && Levels(j') > Levels(j);
      UnfoldingIsUnique(h, Table(r), j, j');
      assert false;
    }
  }

  lemma TallerInside(h: Heap, r: nat, j: Json, visiting: set<nat>, levels: nat)
    requires Unfolds(h, Table(r), j) && Taller(h, visiting, Levels(j)) && levels < Levels(j)
    ensures Taller(h, visiting + {r}, levels)
  {
    forall a | a in visiting + {r} ensures HasTaller(h, a, levels) {
      if a in visiting {
        assert HasTaller(h, a, Levels(j));
      }
    }
  }

  lemma {:induction false} EncodeIsComplete(h: Heap, v: Value, j: Json, depth: nat, visiting: set<nat>)
    requires WellFormed(h) && Proper(h, v)
    requires Unfolds(h, v, j) && depth + Levels(j) <= MAX_DEPTH
    requires Taller(h, visiting, Levels(j))
    ensures Encode(h, v, depth, visiting) == Ok(j)
    decreases j, 1
  {
    if v.Table? && v.ref != NULL {
      NotVisiting(h, v.ref, j, visiting);
      if j.JArray? {
        ArrayIsComplete(h, v.ref, j, depth, visiting);
      } else {
        ObjectIsComplete(h, v.ref, j, depth, visiting);
      }
    }
  }

  lemma {:induction false} ArrayIsComplete(h: Heap, r: nat, j: Json, depth: nat, visiting: set<nat>)
    requires WellFormed(h) && r in h && r != NULL && j.JArray?
    requires Unfolds(h, Table(r), j) && depth + Levels(j) <= MAX_DEPTH
    requires Taller(h, visiting, Levels(j))
    ensures EncodeContents(h, r, depth, visiting + {r}) == Ok(j)
    decreases j, 0, 1
  {
    var entries, items := h[r].entries, j.items;
    DenseLengthIsUnique(entries, |items|);
    forall i | 0 <= i < |items| ensures ItemEncodes(h, r, i, items[i], depth, visiting + {r}) {
      ItemIsComplete(h, r, j, i, depth, visiting);
    }
    ItemsAreChildren(h, r, items, |items|, depth, visiting + {r});
  }

  lemma {:induction false} ObjectIsComplete(h: Heap, r: nat, j: Json, depth: nat, visiting: set<nat>)
    requires WellFormed(h) && r in h && r != NULL && j.JObject?
    requires Unfolds(h, Table(r), j) && depth + Levels(j) <= MAX_DEPTH
    requires Taller(h, visiting, Levels(j))
    ensures EncodeContents(h, r, depth, visiting + {r}) == Ok(j)
    decreases j, 0, 1
  {
    var entries, members := h[r].entries, j.members;
    ObjectIsNotDense(entries);
    AscendingIsUnique(Keys(members), AscendingKeys(entries));
    forall i | 0 <= i < |members|
      ensures MemberEncodes(h, r, Keys(members)[i], members[i], depth, visiting + {r})
    {
      MemberIsComplete(h, r, j, i, depth, visiting);
    }
    MembersAreChildren(h, r, Keys(members), members, depth, visiting + {r});
  }

  lemma {:induction false} ItemIsComplete(h: Heap, r: nat, j: Json, i: nat, depth: nat, visiting: set<nat>)
    requires WellFormed(h) && r in h && r != NULL && j.JArray? && i < |j.items|
    requires Unfolds(h, Table(r), j) && depth + Levels(j) <= MAX_DEPTH
    requires Taller(h, visiting, Levels(j))
    ensures ItemEncodes(h, r, i, j.items[i], depth, visiting + {r})
    decreases j, 0, 0
  {
    var key := Integer(i + 1);
    assert key in h[r].entries;
    TallerInside(h, r, j, visiting, Levels(j.items[i]));
    EncodeIsComplete(h, h[r].entries[key], j.items[i], depth + 1, visiting + {r});
  }

  lemma {:induction false} MemberIsComplete(h: Heap, r: nat, j: Json, i: nat, depth: nat, visiting: set<nat>)
    requires WellFormed(h) && r in h && r != NULL && j.JObject? && i < |j.members|
    requires Unfolds(h, Table(r), j) && depth + Levels(j) <= MAX_DEPTH
    requires Taller(h, visiting, Levels(j))
    ensures MemberEncodes(h, r, j.members[i].key, j.members[i], depth, visiting + {r})
    decreases j, 0, 0
  {
    var member := j.members[i];
    TallerInside(h, r, j, visiting, Levels(member.value));
    EncodeIsComplete(h, h[r].entries[String(member.key)], member.value, depth + 1, visiting + {r});
  }

  lemma ObjectIsNotDense(entries: map<Value, Value>)
    requires StringKeys(entries)
    ensures DenseUpTo(entries, |entries|) ==> |entries| == 0
  {
    assert Integer(1) !in entries;
  }

  /** Encoding from the root succeeds exactly when the value has an unfolding of at
      most 256 nested tables, and the result is that unfolding. */
  lemma EncodeIsUnfolding(h: Heap, v: Value, j: Json)
    requires WellFormed(h) && Proper(h, v)
    ensures Encode(h, v, 0, {}) == Ok(j) <==> Unfolds(h, v, j) && Levels(j) <= MAX_DEPTH
  {
    if Encode(h, v, 0, {}) == Ok(j) {
      EncodeIsSound(h, v, j, 0, {});
    }
    if Unfolds(h, v, j) && Levels(j) <= MAX_DEPTH {
      EncodeIsComplete(h, v, j, 0, {});
    }
  }

  // ---- cycles --------------------------------------------------------------

  lemma {:induction false} UnfoldingAlongPath(h: Heap, path: seq<nat>, from: nat, to: nat, j: Json) returns (last: Json)
    requires WellFormed(h) && Path(h, path) && from <= to < |path| && Unfolds(h, Table(path[from]), j)
    ensures Unfolds(h, Table(path[to]), last)
    ensures Levels(last) + (to - from) <= Levels(j)
    decreases |path| - from
  {
    if from == to {
      return j;
    }
    var t := h[path[from]];
    assert Edge(h, path[from], path[from + 1]);
    var k :| k in t.entries && t.entries[k] == Table(path[from + 1]);
    var child: Json;
    match j {
      case JArray(items) => child := items[k.i - 1];
      case JObject(members) =>
        var i :| 0 <= i < |members| && Keys(members)[i] == k.s;
        child := members[i].value;
    }
    assert Levels(child) < Levels(j);
    last := UnfoldingAlongPath(h, path, from + 1, to, child);
  }

  /** Encoding fails whenever a cycle is reachable, wherever the path enters it. */
  lemma CycleIsRefused(h: Heap, path: seq<nat>, i: nat, k: nat)
    requires WellFormed(h) && Path(h, path) && i < k < |path| && path[i] == path[k]
    ensures Encode(h, Table(path[0]), 0, {}).Err?
  {
    if Encode(h, Table(path[0]), 0, {}).Ok? {
      var j := Encode(h, Table(path[0]), 0, {}).value;
      EncodeIsSound(h, Table(path[0]), j, 0, {});
      var before := UnfoldingAlongPath(h, path, 0, i, j);
      var after := UnfoldingAlongPath(h, path, i, k, before);
      UnfoldingIsUnique(h, Table(path[i]), before, after);
      assert false;
    }
  }

  // ---- canonical form -------------------------------------------------------

  /** `same` relates tables of equal mark and keys whose values are equal or related. */
  ghost predicate SameContents(h: Heap, h': Heap, same: set<(nat, nat)>) {
    forall a, b :: (a, b) in same ==>
      && a in h && b in h' && (a == NULL <==> b == NULL)
      && h[a].marked == h'[b].marked && h[a].entries.Keys == h'[b].entries.Keys
      && forall k :: k in h[a].entries ==> SameValue(same, h[a].entries[k], h'[b].entries[k])
  }

  predicate SameValue(same: set<(nat, nat)>, v: Value, v': Value) {
    if v.Table? && v'.Table? then (v.ref, v'.ref) in same else v == v' && !v.Table?
  }

  lemma {:induction false} SameContentsSameUnfolding(h: Heap, h': Heap, same: set<(nat, nat)>, v: Value, v': Value, j: Json)
    requires SameContents(h, h', same) && SameValue(same, v, v') && Unfolds(h, v, j)
    ensures Unfolds(h', v', j)
    decreases j
  {
    match j
    case JArray(items) =>
      var t, t' := h[v.ref], h'[v'.ref];
      assert forall k :: k in t.entries <==> k in t'.entries.Keys;
      forall k | k in t'.entries ensures Unfolds(h', t'.entries[k], items[k.i - 1]) {
        SameContentsSameUnfolding(h, h', same, t.entries[k], t'.entries[k], items[k.i - 1]);
      }
    case JObject(members) =>
      var t, t' := h[v.ref], h'[v'.ref];
      assert forall k :: k in t.entries <==> k in t'.entries.Keys;
      forall i | 0 <= i < |members|
        ensures String(members[i].key) in t'.entries && Unfolds(h', t'.entries[String(members[i].key)], members[i].value)
      {
        var k := String(members[i].key);
        SameContentsSameUnfolding(h, h', same, t.entries[k], t'.entries[k], members[i].value);
      }
    case _ =>
  }

  /** Equal contents encode to the same tree, whatever their table identities,
      their sharing and the order in which each table is traversed. */
  lemma EncodingIsCanonical(h: Heap, h': Heap, same: set<(nat, nat)>, v: Value, v': Value)
    requires WellFormed(h) && WellFormed(h') && Proper(h, v) && Proper(h', v')
    requires SameContents(h, h', same) && SameValue(same, v, v')
    ensures Encode(h, v, 0, {}).Ok? <==> Encode(h', v', 0, {}).Ok?
    ensures Encode(h, v, 0, {}).Ok? ==> Encode(h, v, 0, {}) == Encode(h', v', 0, {})
  {
    var converse := set p | p in same :: (p.1, p.0);
    assert forall a, b :: (a, b) in same <==> (b, a) in converse;
    assert SameContents(h', h, converse) && SameValue(converse, v', v);
    if Encode(h, v, 0, {}).Ok? {
      var j := Encode(h, v, 0, {}).value;
      EncodeIsUnfolding(h, v, j);
      SameContentsSameUnfolding(h, h', same, v, v', j);
      EncodeIsUnfolding(h', v', j);
    }
    if Encode(h', v', 0, {}).Ok? {
      var j := Encode(h', v', 0, {}).value;
      EncodeIsUnfolding(h', v', j);
      SameContentsSameUnfolding(h', h, converse, v', v, j);
      EncodeIsUnfolding(h, v, j);
    }
  }
}
