/** Lua values and an explicit heap of table identities.

    A table is a reference; its contents live in the heap, so sharing and cycles
    are representable. A string is a sequence of bytes, one `char` for each byte. */
module LuaHeap {
  const MIN_INTEGER: int := -0x8000_0000_0000_0000
  const MAX_INTEGER: int := 0x7fff_ffff_ffff_ffff

  datatype Float = Finite(value: real) | Infinite(negative: bool) | NaN

  datatype Value =
    | Nil
    | Boolean(b: bool)
    | Integer(i: int)
    | Number(f: Float)
    | String(s: string)
    | Other(id: nat)     // functions, threads and userdata
    | Table(ref: nat)

  datatype TableData = TableData(entries: map<Value, Value>, marked: bool, metatable: bool)

  type Heap = map<nat, TableData>

  /** `json.null` is one distinguished empty table that carries a metatable. */
  const NULL: nat := 0
  const NULL_DATA := TableData(map[], false, true)

  /** `v` can occur while the heap is `h`: a table exists, an integer fits 64 bits. */
  predicate Proper(h: Heap, v: Value) {
    && (v.Table? ==> v.ref in h)
    && (v.Integer? ==> MIN_INTEGER <= v.i <= MAX_INTEGER)
  }

  ghost predicate WellFormed(h: Heap) {
    && NULL in h && h[NULL] == NULL_DATA
    && (forall r, k :: r in h && k in h[r].entries ==> ValidEntry(h, k, h[r].entries[k]))
  }

  predicate ValidEntry(h: Heap, k: Value, v: Value) {
    !k.Nil? && (k.Table? ==> k.ref in h) && v != Nil && Proper(h, v)
  }

  lemma EntryIsProper(h: Heap, r: nat, k: Value)
    requires WellFormed(h) && r in h && k in h[r].entries
    ensures h[r].entries[k] != Nil && Proper(h, h[r].entries[k])
  {
    assert ValidEntry(h, k, h[r].entries[k]);
  }

  /** Lua's `==` without metamethods: numbers compare by mathematical value. */
  predicate RawEqual(a: Value, b: Value) {
    match (a, b)
    case (Integer(i), Number(Finite(r))) => i as real == r
    case (Number(Finite(r)), Integer(i)) => i as real == r
    case (Number(NaN), _) => false
    case _ => a == b
  }

  /** What it decides: the same nil, boolean, string, table or other object; or two numbers of equal
      mathematical value, neither of them NaN, whatever their representation. */
  lemma RawEqualMeaning(a: Value, b: Value)
    ensures RawEqual(a, b) <==>
      || (a.Nil? && b.Nil?)
      || (a.Boolean? && b.Boolean? && (a.b <==> b.b))
      || (a.String? && b.String? && a.s == b.s)
      || (a.Other? && b.Other? && a.id == b.id)
      || (a.Table? && b.Table? && a.ref == b.ref)
      || (a.Integer? && b.Integer? && a.i == b.i)
      || (a.Integer? && b.Number? && b.f.Finite? && a.i as real == b.f.value)
      || (a.Number? && b.Integer? && a.f.Finite? && a.f.value == b.i as real)
      || (a.Number? && b.Number? && a.f.Finite? && b.f.Finite? && a.f.value == b.f.value)
      || (a.Number? && b.Number? && a.f.Infinite? && b.f.Infinite? && (a.f.negative <==> b.f.negative))
  {
  }

  /** An edge of the table graph: table `from` stores table `to` as a value. */
  predicate Edge(h: Heap, from: nat, to: nat) {
    from in h && Table(to) in h[from].entries.Values
  }

  /** `path` follows edges of the heap from its first table to its last. */
  ghost predicate Path(h: Heap, path: seq<nat>) {
    && |path| > 0
    && (forall i :: 0 <= i < |path| ==> path[i] in h)
    && (forall i :: 0 < i < |path| ==> Edge(h, path[i - 1], path[i]))
  }

  datatype Result<+T, +E> = Ok(value: T) | Err(error: E)

  datatype Option<+T> = None | Some(value: T)
}
