/** JSON documents as trees, and the bytewise key order of the encoder. */
module JsonTree {
  import opened Numbers
  import opened LuaHeap

  /** The integers a yyjson number can carry: int64 and uint64. */
  type JsonInt = i: int | MIN_INTEGER <= i <= 2 * MAX_INTEGER + 1

  datatype Json =
    | JNull
    | JBool(b: bool)
    | JInt(i: JsonInt)
    | JReal(r: real)
    | JString(s: string)
    | JArray(items: seq<Json>)
    | JObject(members: seq<Member>)

  datatype Member = Member(key: string, value: Json)

  /** Nesting as the encoder counts it: only arrays and objects are levels. */
  function Levels(j: Json): nat
    decreases j, 1
  {
    match j
    case JArray(items) => 1 + LevelsOfItems(items)
    case JObject(members) => 1 + LevelsOfMembers(members)
    case _ => 0
  }

  function LevelsOfItems(items: seq<Json>): (n: nat)
    ensures forall i :: 0 <= i < |items| ==> Levels(items[i]) <= n
    decreases items, 0
  {
    if items == [] then 0 else Max(Levels(items[0]), LevelsOfItems(items[1..]))
  }

  function LevelsOfMembers(members: seq<Member>): (n: nat)
    ensures forall i :: 0 <= i < |members| ==> Levels(members[i].value) <= n
    decreases members, 0
  {
    if members == [] then 0 else Max(Levels(members[0].value), LevelsOfMembers(members[1..]))
  }

  /** Nesting as the decoder counts it: leaves are levels too. */
  function Depth(j: Json): nat
    decreases j, 1
  {
    match j
    case JArray(items) => 1 + DepthOfItems(items)
    case JObject(members) => 1 + DepthOfMembers(members)
    case _ => 1
  }

  function DepthOfItems(items: seq<Json>): (n: nat)
    ensures forall i :: 0 <= i < |items| ==> Depth(items[i]) <= n
    decreases items, 0
  {
    if items == [] then 0 else Max(Depth(items[0]), DepthOfItems(items[1..]))
  }

  function DepthOfMembers(members: seq<Member>): (n: nat)
    ensures forall i :: 0 <= i < |members| ==> Depth(members[i].value) <= n
    decreases members, 0
  {
    if members == [] then 0 else Max(Depth(members[0].value), DepthOfMembers(members[1..]))
  }

  // ---- key order -------------------------------------------------------

  /** The C library's comparison of the first `n` bytes. */
  function MemCmp(a: string, b: string, n: nat): (r: int)
    requires n <= |a| && n <= |b|
  {
    if n == 0 then 0
    else if a[0] < b[0] then -1
    else if b[0] < a[0] then 1
    else MemCmp(a[1..], b[1..], n - 1)
  }

  /** `compare_object_keys`: the shared prefix decides, then the length. */
  function CompareObjectKeys(a: string, b: string): int {
    var shared := if |a| < |b| then |a| else |b|;
    var result := MemCmp(a, b, shared);
    if result != 0 then result
    else if |a| < |b| then -1
    else if |a| > |b| then 1
    else 0
  }

  /** Lexicographic order: at the first difference `a` ends or has the smaller byte. */
  ghost predicate Before(a: string, b: string) {
    exists i: nat :: DiffersAt(a, b, i)
  }

  ghost predicate DiffersAt(a: string, b: string, i: nat) {
    && i <= |a| && i < |b| && a[..i] == b[..i]
    && (i < |a| ==> a[i] < b[i])
  }

  lemma {:induction false} MemCmpMeaning(a: string, b: string, n: nat)
    requires n <= |a| && n <= |b|
    ensures MemCmp(a, b, n) == 0 <==> a[..n] == b[..n]
    ensures MemCmp(a, b, n) < 0 ==> exists i :: 0 <= i < n && a[..i] == b[..i] && a[i] < b[i]
    ensures MemCmp(a, b, n) > 0 ==> exists i :: 0 <= i < n && a[..i] == b[..i] && b[i] < a[i]
  {
    if n == 0 {
    } else {
      if a[0] == b[0] {
        MemCmpMeaning(a[1..], b[1..], n - 1);
        assert a[..n] == [a[0]] + a[1..][..n - 1];
        assert b[..n] == [b[0]] + b[1..][..n - 1];
        var r := MemCmp(a[1..], b[1..], n - 1);
        if r != 0 {
          var i :| 0 <= i < n - 1 && a[1..][..i] == b[1..][..i] &&
            (if r < 0 then a[1..][i] < b[1..][i] else b[1..][i] < a[1..][i]);
          assert a[..i + 1] == [a[0]] + a[1..][..i];
          assert b[..i + 1] == [b[0]] + b[1..][..i];
          assert a[i + 1] == a[1..][i] && b[i + 1] == b[1..][i];
        }
        assert a[1..][..n - 1] == a[..n][1..] && b[1..][..n - 1] == b[..n][1..];
      } else {
        assert a[..n][0] != b[..n][0];
        assert a[..0] == b[..0];
      }
    }
  }

  /** The comparator decides the lexicographic order, and answers 0 on equal keys only. */
  lemma CompareIsLexicographic(a: string, b: string)
    ensures CompareObjectKeys(a, b) < 0 <==> Before(a, b)
    ensures CompareObjectKeys(a, b) > 0 <==> Before(b, a)
    ensures CompareObjectKeys(a, b) == 0 <==> a == b
  {
    var shared := if |a| < |b| then |a| else |b|;
    MemCmpMeaning(a, b, shared);
    var r := MemCmp(a, b, shared);
    BeforeIsAsymmetric(a, b);
    BeforeIsAsymmetric(b, a);
    if r < 0 {
      var i :| 0 <= i < shared && a[..i] == b[..i] && a[i] < b[i];
      assert DiffersAt(a, b, i);
    } else if r > 0 {
      var i :| 0 <= i < shared && a[..i] == b[..i] && b[i] < a[i];
      assert DiffersAt(b, a, i);
    } else if |a| < |b| {
      assert DiffersAt(a, b, |a|);
    } else if |b| < |a| {
      assert DiffersAt(b, a, |b|);
    } else {
      assert a == a[..shared] == b[..shared] == b;
    }
  }

  lemma BeforeIsAsymmetric(a: string, b: string)
    ensures Before(a, b) ==> !Before(b, a) && a != b
  {
    forall i: nat, k: nat | DiffersAt(a, b, i)
      ensures !DiffersAt(b, a, k) && a != b
    {
      assert i < k <= |a| ==> a[..k][i] == a[i];
      assert i < k <= |b| ==> b[..k][i] == b[i];
      assert k < i ==> a[..i][k] == a[k] && b[..i][k] == b[k];
    }
  }

  lemma BeforeIsTransitive(a: string, b: string, c: string)
    requires Before(a, b) && Before(b, c)
    ensures Before(a, c)
  {
    var i: nat :| DiffersAt(a, b, i);
    var k: nat :| DiffersAt(b, c, k);
    if i <= k {
      assert a[..i] == b[..i] == b[..k][..i] == c[..k][..i] == c[..i];
      assert i < k ==> b[..k][i] == c[..k][i];
      assert DiffersAt(a, c, i);
    } else {
      assert a[..k] == a[..i][..k] == b[..i][..k] == b[..k] == c[..k];
      assert a[..i][k] == b[..i][k];
      assert DiffersAt(a, c, k);
    }
  }

  lemma BeforeIsTotal(a: string, b: string)
    ensures Before(a, b) || a == b || Before(b, a)
  {
    CompareIsLexicographic(a, b);
  }

  // ---- sorted key sequences --------------------------------------------

  ghost predicate Ascending(keys: seq<string>) {
    forall i, k {:trigger Before(keys[i], keys[k])} :: 0 <= i < k < |keys| ==> Before(keys[i], keys[k])
  }

  /** One insertion into an ascending sequence, by the encoder's comparator. */
  function InsertKey(key: string, keys: seq<string>): (r: seq<string>)
    ensures |r| == |keys| + 1
    ensures forall k :: k in r <==> k == key || k in keys
  {
    if keys == [] || CompareObjectKeys(key, keys[0]) <= 0 then [key] + keys
    else
      var rest := InsertKey(key, keys[1..]);
      assert keys == [keys[0]] + keys[1..];
      [keys[0]] + rest
  }

  /** The result of `qsort` with that comparator. */
  function SortKeys(keys: seq<string>): (r: seq<string>)
    ensures |r| == |keys|
    ensures forall k :: k in r <==> k in keys
  {
    if keys == [] then []
    else
      assert keys == [keys[0]] + keys[1..];
      InsertKey(keys[0], SortKeys(keys[1..]))
  }

  lemma {:induction false} InsertKeepsAscending(key: string, keys: seq<string>)
    requires Ascending(keys) && key !in keys
    ensures Ascending(InsertKey(key, keys))
  {
    if keys == [] {
    } else {
      CompareIsLexicographic(key, keys[0]);
      assert key != keys[0];
      var r := InsertKey(key, keys);
      if CompareObjectKeys(key, keys[0]) <= 0 {
        forall i, k | 0 <= i < k < |r| ensures Before(r[i], r[k]) {
          if i == 0 && k > 1 {
            BeforeIsTransitive(key, keys[0], keys[k - 1]);
          }
        }
      } else {
        BeforeIsTotal(key, keys[0]);
        InsertKeepsAscending(key, keys[1..]);
        var rest := InsertKey(key, keys[1..]);
        forall i, k | 0 <= i < k < |r| ensures Before(r[i], r[k]) {
          if i == 0 {
            assert r[k] == rest[k - 1] && rest[k - 1] in rest;
            if r[k] != key {
              var m :| 0 <= m < |keys[1..]| && keys[1..][m] == r[k];
              assert keys[m + 1] == r[k];
            }
          } else {
            assert r[i] == rest[i - 1] && r[k] == rest[k - 1];
          }
        }
      }
    }
  }

  ghost predicate Distinct(keys: seq<string>) {
    forall i, k :: 0 <= i < k < |keys| ==> keys[i] != keys[k]
  }

  lemma {:induction false} SortIsAscending(keys: seq<string>)
    requires Distinct(keys)
    ensures Ascending(SortKeys(keys))
  {
    if keys == [] {
    } else {
      SortIsAscending(keys[1..]);
      assert keys[0] !in keys[1..];
      InsertKeepsAscending(keys[0], SortKeys(keys[1..]));
    }
  }

  /** An ascending sequence is determined by its elements. */
  lemma {:induction false} AscendingIsUnique(a: seq<string>, b: seq<string>)
    requires Ascending(a) && Ascending(b)
    requires forall k :: k in a <==> k in b
    ensures a == b
  {
    if a == [] {
      assert forall k :: 0 <= k < |b| ==> b[k] in b;
    } else {
      assert a[0] in a && a[0] in b;
      var m :| 0 <= m < |b| && b[m] == a[0];
      assert b[0] in b && b[0] in a;
      var n :| 0 <= n < |a| && a[n] == b[0];
      BeforeIsAsymmetric(a[0], b[0]);
      assert m == 0 && n == 0;
      forall k ensures k in a[1..] <==> k in b[1..] {
        TailMembers(a, k);
        TailMembers(b, k);
      }
      AscendingIsUnique(a[1..], b[1..]);
      assert a == [a[0]] + a[1..] && b == [b[0]] + b[1..];
    }
  }

  lemma TailMembers(a: seq<string>, k: string)
    requires Ascending(a) && a != []
    ensures k in a[1..] <==> k in a && k != a[0]
  {
    assert a == [a[0]] + a[1..];
    if k in a[1..] {
      BeforeIsAsymmetric(a[0], k);
    }
  }
}
