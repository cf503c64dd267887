/** Lua values as finite trees, and when two values of a heap are the same tree. */
module StateTree {
  import opened LuaHeap
  import opened LuaMemory

  datatype Tree = Leaf(value: Value) | Node(marked: bool, children: map<Value, Tree>)

  /** `t` is the tree of `v`. A value has a tree exactly when nothing reachable from
      it is cyclic. (Comparing with `true` keeps the verifier from splitting uses.) */
  ghost predicate Denotes(h: Heap, v: Value, t: Tree)
    decreases t
  {
    true == (
    match t
    case Leaf(x) => !v.Table? && v == x
    case Node(marked, children) =>
      && v.Table? && v.ref in h
      && h[v.ref].marked == marked && h[v.ref].entries.Keys == children.Keys
      && forall k :: k in children ==> Denotes(h, h[v.ref].entries[k], children[k])
    )
  }

  ghost predicate Acyclic(h: Heap, v: Value) {
    exists t :: Denotes(h, v, t)
  }

  lemma {:induction false} TreeIsUnique(h: Heap, v: Value, t: Tree, t': Tree)
    requires Denotes(h, v, t) && Denotes(h, v, t')
    ensures t == t'
    decreases t
  {
    if t.Leaf? {
    } else {
      forall k | k in t.children ensures t.children[k] == t'.children[k] {
        assert k in t'.children.Keys;
        TreeIsUnique(h, h[v.ref].entries[k], t.children[k], t'.children[k]);
      }
      assert t.children == t'.children;
    }
  }

  lemma {:induction false} DenotesInLargerHeap(h: Heap, h': Heap, v: Value, t: Tree)
    requires Extends(h, h') && Denotes(h, v, t)
    ensures Denotes(h', v, t)
    decreases t
  {
    if t.Leaf? {
    } else {
      forall k | k in t.children ensures Denotes(h', h'[v.ref].entries[k], t.children[k]) {
        DenotesInLargerHeap(h, h', h[v.ref].entries[k], t.children[k]);
      }
    }
  }

  ghost function Maximum(s: set<nat>): (m: nat)
    ensures forall x :: x in s ==> x <= m
  {
    if s == {} then 0
    else
      var x :| x in s;
      var rest := Maximum(s - {x});
      assert forall y :: y in s ==> y == x || y in s - {x};
      if x > rest then x else rest
  }

  ghost function Height(t: Tree): (n: nat)
    ensures t.Node? ==> forall k :: k in t.children ==> Height(t.children[k]) < n
    decreases t
  {
    match t
    case Leaf(_) => 0
    case Node(_, children) =>
      var heights := set k | k in children :: Height(children[k]);
      assert forall k :: k in children ==> Height(children[k]) in heights;
      1 + Maximum(heights)
  }

  // ---- equality of trees ------------------------------------------------------

  /** Deep structural equality, array mark included; leaves compare as Lua's `==`,
      so a number equals the same number in the other representation, and NaN
      equals nothing. */
  predicate SameTree(t: Tree, t': Tree)
    decreases t
  {
    match (t, t')
    case (Leaf(v), Leaf(v')) => RawEqual(v, v')
    case (Node(m, c), Node(m', c')) =>
      m == m' && c.Keys == c'.Keys && forall k :: k in c ==> SameTree(c[k], c'[k])
    case _ => false
  }

  predicate NaNFree(t: Tree)
    decreases t
  {
    match t
    case Leaf(v) => v != Number(NaN)
    case Node(_, c) => forall k :: k in c ==> NaNFree(c[k])
  }

  /** A tree without NaN, and only such a tree, is the same as itself. */
  lemma {:induction false} SameAsItself(t: Tree)
    ensures SameTree(t, t) <==> NaNFree(t)
    decreases t
  {
    if t.Leaf? {
    } else {
      forall k | k in t.children ensures SameTree(t.children[k], t.children[k]) <==> NaNFree(t.children[k]) {
        SameAsItself(t.children[k]);
      }
    }
  }

  /** What a path of keys leads to. */
  function At(t: Tree, path: seq<Value>): Option<Tree>
    decreases |path|
  {
    if path == [] then Some(t)
    else if t.Node? && path[0] in t.children then At(t.children[path[0]], path[1..])
    else None
  }

  /** The same leaf, as far as values are concerned: any kind of value but NaN, equal to itself, or
      two numbers of equal mathematical value. */
  predicate SameLeaf(x: Value, y: Value) {
    || (x == y && x != Number(NaN))
    || (x.Integer? && y.Number? && y.f.Finite? && x.i as real == y.f.value)
    || (x.Number? && y.Integer? && x.f.Finite? && x.f.value == y.i as real)
  }

  /** What two trees show at one place: nothing, tables of the same mark, or the same leaf. */
  predicate SameSight(a: Option<Tree>, b: Option<Tree>) {
    match (a, b)
    case (None, None) => true
    case (Some(Node(m, _)), Some(Node(m', _))) => m == m'
    case (Some(Leaf(x)), Some(Leaf(y))) => SameLeaf(x, y)
    case _ => false
  }

  ghost predicate SameEverywhere(t: Tree, t': Tree) {
    forall path: seq<Value> :: SameSight(At(t, path), At(t', path))
  }

  /** Two trees are the same exactly when every path shows the same in both. */
  lemma {:induction false} SameTreeMeaning(t: Tree, t': Tree)
    ensures SameTree(t, t') <==> SameEverywhere(t, t')
    decreases t
  {
    if SameTree(t, t') {
      forall path: seq<Value> ensures SameSight(At(t, path), At(t', path)) {
        SameTreesShowTheSame(t, t', path);
      }
    }
    if SameEverywhere(t, t') {
      assert SameSight(At(t, []), At(t', []));
      if t.Leaf? {
        RawEqualMeaning(t.value, t'.value);
      } else {
        forall k ensures k in t.children <==> k in t'.children
          ensures k in t.children && k in t'.children ==> SameTree(t.children[k], t'.children[k])
        {
          SameBelow(t, t', k);
          if k in t.children {
            SameTreeMeaning(t.children[k], t'.children[k]);
          }
        }
        assert t.children.Keys == t'.children.Keys;
      }
    }
  }

  lemma {:induction false} SameTreesShowTheSame(t: Tree, t': Tree, path: seq<Value>)
    requires SameTree(t, t')
    ensures SameSight(At(t, path), At(t', path))
    decreases |path|
  {
    if path == [] {
      if t.Leaf? {
        RawEqualMeaning(t.value, t'.value);
      }
    } else if t.Node? {
      assert path[0] in t.children.Keys <==> path[0] in t'.children.Keys;
      if path[0] in t.children {
        SameTreesShowTheSame(t.children[path[0]], t'.children[path[0]], path[1..]);
      }
    }
  }

  lemma SameBelow(t: Tree, t': Tree, k: Value)
    requires t.Node? && t'.Node? && SameEverywhere(t, t')
    ensures k in t.children <==> k in t'.children
    ensures k in t.children && k in t'.children ==> SameEverywhere(t.children[k], t'.children[k])
  {
    assert SameSight(At(t, [k]), At(t', [k]));
    assert k in t.children ==> At(t, [k]) == Some(t.children[k]);
    assert k in t'.children ==> At(t', [k]) == Some(t'.children[k]);
    if k in t.children && k in t'.children {
      forall path: seq<Value> ensures SameSight(At(t.children[k], path), At(t'.children[k], path)) {
        assert ([k] + path)[1..] == path;
        assert SameSight(At(t, [k] + path), At(t', [k] + path));
      }
    }
  }

  // ---- equality of graphs -------------------------------------------------------

  function Field(h: Heap, r: nat, k: Value): Value
    requires r in h
  {
    if k in h[r].entries then h[r].entries[k] else Nil
  }

  ghost predicate Related(rel: set<(nat, nat)>, v: Value, v': Value) {
    RawEqual(v, v') || (v.Table? && v'.Table? && (v.ref, v'.ref) in rel)
  }

  /** Tables `a` and `b` agree on the mark and on every key, up to `rel` below. */
  ghost predicate Matched(h: Heap, rel: set<(nat, nat)>, a: nat, b: nat) {
    && a in h && b in h && h[a].marked == h[b].marked
    && (forall k :: k in h[a].entries ==> Related(rel, Field(h, a, k), Field(h, b, k)))
    && (forall k :: k in h[b].entries ==> k in h[a].entries)
  }

  ghost predicate Bisimulation(h: Heap, rel: set<(nat, nat)>) {
    forall a, b :: (a, b) in rel ==> Matched(h, rel, a, b)
  }

  /** No sequence of field accesses tells `v` from `v'`; meaningful on cyclic heaps too. */
  ghost predicate Bisimilar(h: Heap, v: Value, v': Value) {
    exists rel :: Bisimulation(h, rel) && Related(rel, v, v')
  }

  lemma MatchedMonotone(h: Heap, rel: set<(nat, nat)>, rel': set<(nat, nat)>, a: nat, b: nat)
    requires Matched(h, rel, a, b) && rel <= rel'
    ensures Matched(h, rel', a, b)
  {
    forall k | k in h[a].entries ensures Related(rel', Field(h, a, k), Field(h, b, k)) {
      assert Related(rel, Field(h, a, k), Field(h, b, k));
    }
  }

  // ---- graphs and trees agree -----------------------------------------------------

  /** Bisimilar values have the same tree, unless a NaN hides behind a table that both share. */
  lemma {:induction false} BisimilarTreesAreSame(h: Heap, rel: set<(nat, nat)>, v: Value, v': Value, t: Tree, t': Tree)
    requires WellFormed(h) && Denotes(h, v, t) && Denotes(h, v', t') && NaNFree(t)
    requires Bisimulation(h, rel) && Related(rel, v, v')
    ensures SameTree(t, t')
    decreases t
  {
    if v.Table? && v == v' {
      TreeIsUnique(h, v, t, t');
      SameAsItself(t);
    } else if v.Table? {
      var a, b := v.ref, v'.ref;
      assert Matched(h, rel, a, b);
      SameKeys(h, rel, a, b);
      assert t.children.Keys == h[a].entries.Keys == h[b].entries.Keys == t'.children.Keys;
      forall k | k in t.children ensures SameTree(t.children[k], t'.children[k]) {
        assert k in h[a].entries.Keys && k in t'.children.Keys;
        assert Related(rel, Field(h, a, k), Field(h, b, k));
        BisimilarTreesAreSame(h, rel, h[a].entries[k], h[b].entries[k], t.children[k], t'.children[k]);
      }
    }
  }

  lemma {:induction false} SameTreesAreNaNFree(t: Tree, t': Tree)
    requires SameTree(t, t')
    ensures NaNFree(t) && NaNFree(t')
    decreases t
  {
    if t.Leaf? {
    } else {
      forall k | k in t.children ensures NaNFree(t.children[k]) && NaNFree(t'.children[k]) {
        SameTreesAreNaNFree(t.children[k], t'.children[k]);
      }
      assert t'.children.Keys == t.children.Keys;
    }
  }

  /** No table that both sub-heaps hold denotes a tree with NaN. */
  ghost predicate SharedNaNFree(h: Heap, h1: Heap, h2: Heap) {
    forall a, t :: a in h1 && a in h2 && Denotes(h, Table(a), t) ==> NaNFree(t)
  }

  /** Then bisimilar values hold no NaN at all. */
  lemma {:induction false} BisimilarApartIsNaNFree(h: Heap, h1: Heap, h2: Heap, rel: set<(nat, nat)>, v: Value, v': Value, t: Tree, t': Tree)
    requires WellFormed(h) && Extends(h1, h) && Extends(h2, h) && SharedNaNFree(h, h1, h2)
    requires Denotes(h1, v, t) && Denotes(h2, v', t')
    requires Bisimulation(h, rel) && Related(rel, v, v')
    ensures NaNFree(t)
    decreases t
  {
    if v.Table? && v == v' {
      DenotesInLargerHeap(h1, h, v, t);
    } else if v.Table? {
      var a, b := v.ref, v'.ref;
      assert Matched(h, rel, a, b);
      assert t.children.Keys == t'.children.Keys by {
        SameKeys(h, rel, a, b);
        assert h1[a] == h[a] && h2[b] == h[b];
      }
      forall k | k in t.children ensures NaNFree(t.children[k]) {
        assert k in t'.children.Keys && k in h[a].entries.Keys && k in h[b].entries.Keys;
        assert Related(rel, Field(h, a, k), Field(h, b, k));
        BisimilarApartIsNaNFree(h, h1, h2, rel, h1[a].entries[k], h2[b].entries[k], t.children[k], t'.children[k]);
      }
    }
  }

  lemma SameKeys(h: Heap, rel: set<(nat, nat)>, a: nat, b: nat)
    requires WellFormed(h) && Matched(h, rel, a, b)
    ensures h[a].entries.Keys == h[b].entries.Keys
  {
    forall k | k in h[a].entries ensures k in h[b].entries {
      assert Related(rel, Field(h, a, k), Field(h, b, k));
      EntryIsProper(h, a, k);
    }
    assert forall k :: k in h[b].entries.Keys ==> k in h[a].entries;
  }

  ghost predicate SameTrees(h: Heap, a: nat, b: nat) {
    exists t, t' :: Denotes(h, Table(a), t) && Denotes(h, Table(b), t') && SameTree(t, t')
  }

  ghost function SameTreeTables(h: Heap): set<(nat, nat)> {
    set a, b | a in h && b in h && SameTrees(h, a, b) :: (a, b)
  }

  lemma ValuesRelated(h: Heap, v: Value, v': Value, t: Tree, t': Tree)
    requires Denotes(h, v, t) && Denotes(h, v', t') && SameTree(t, t')
    ensures Related(SameTreeTables(h), v, v')
  {
    if t.Node? {
      assert SameTrees(h, v.ref, v'.ref);
    }
  }

  lemma SameTreesAreMatched(h: Heap, a: nat, b: nat, t: Tree, t': Tree)
    requires Denotes(h, Table(a), t) && Denotes(h, Table(b), t') && SameTree(t, t')
    ensures Matched(h, SameTreeTables(h), a, b)
  {
    assert h[a].entries.Keys == t.children.Keys == t'.children.Keys == h[b].entries.Keys;
    forall k | k in h[a].entries ensures Related(SameTreeTables(h), Field(h, a, k), Field(h, b, k)) {
      assert k in t.children.Keys && k in t'.children.Keys;
      ValuesRelated(h, h[a].entries[k], h[b].entries[k], t.children[k], t'.children[k]);
    }
    assert forall k :: k in h[b].entries ==> k in h[a].entries.Keys;
  }

  lemma SameTreesAreBisimilar(h: Heap, v: Value, v': Value, t: Tree, t': Tree)
    requires Denotes(h, v, t) && Denotes(h, v', t') && SameTree(t, t')
    ensures Bisimilar(h, v, v')
  {
    var rel := SameTreeTables(h);
    forall a, b | (a, b) in rel ensures Matched(h, rel, a, b) {
      assert SameTrees(h, a, b);
      var u, u' :| Denotes(h, Table(a), u) && Denotes(h, Table(b), u') && SameTree(u, u');
      SameTreesAreMatched(h, a, b, u, u');
    }
    ValuesRelated(h, v, v', t, t');
    assert Bisimulation(h, rel);
  }

  /** Only an acyclic value is bisimilar to an acyclic one. */
  lemma {:induction false} BisimilarToTreeHasTree(h: Heap, rel: set<(nat, nat)>, v: Value, v': Value, t: Tree)
    requires WellFormed(h) && Denotes(h, v, t) && Bisimulation(h, rel) && Related(rel, v, v')
    ensures Acyclic(h, v')
    decreases t
  {
    if v.Table? && v != v' {
      var a, b := v.ref, v'.ref;
      assert Matched(h, rel, a, b);
      forall k | k in h[b].entries ensures Acyclic(h, h[b].entries[k]) {
        assert k in h[a].entries.Keys && k in t.children.Keys;
        assert Related(rel, Field(h, a, k), Field(h, b, k));
        BisimilarToTreeHasTree(h, rel, h[a].entries[k], h[b].entries[k], t.children[k]);
      }
      AcyclicChildren(h, b);
    } else if !v.Table? {
      assert !v'.Table?;
      assert Denotes(h, v', Leaf(v'));
    }
  }

  /** The tree of an acyclic value. */
  ghost function TreeOf(h: Heap, v: Value): (t: Tree)
    requires Acyclic(h, v)
    ensures Denotes(h, v, t)
  {
    var t :| Denotes(h, v, t);
    t
  }

  lemma AcyclicChildren(h: Heap, r: nat)
    requires r in h && forall k :: k in h[r].entries ==> Acyclic(h, h[r].entries[k])
    ensures Acyclic(h, Table(r))
  {
    var children := map k | k in h[r].entries :: TreeOf(h, h[r].entries[k]);
    assert Denotes(h, Table(r), Node(h[r].marked, children));
  }

  lemma AcyclicBelow(h: Heap, r: nat, k: Value)
    requires r in h && Acyclic(h, Table(r)) && k in h[r].entries
    ensures Acyclic(h, h[r].entries[k])
  {
    var t := TreeOf(h, Table(r));
    assert k in t.children.Keys;
    assert Denotes(h, h[r].entries[k], t.children[k]);
  }
}
