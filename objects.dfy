/** JavaScript objects with string keys, as the server uses them for the
    archive levels and for the matcher map: an association list that keeps the
    keys in insertion order, which is the order `Object.entries` visits them. */
module Objects {
  import opened Model

  datatype Slot<V> = Slot(key: string, val: V)

  /** No key occurs twice; every JavaScript object satisfies this. */
  predicate UniqueKeys<V>(o: seq<Slot<V>>) {
    forall i, j :: 0 <= i < j < |o| ==> o[i].key != o[j].key
  }

  /** Position of `k` in the key order, or -1 when `k` is not a key. */
  function KeyIndex<V>(o: seq<Slot<V>>, k: string): (r: int)
    ensures -1 <= r < |o|
    ensures r == -1 <==> forall i :: 0 <= i < |o| ==> o[i].key != k
    ensures r >= 0 ==> o[r].key == k && forall i :: 0 <= i < r ==> o[i].key != k
  {
    if o == [] then -1
    else if o[0].key == k then 0
    else
      var r := KeyIndex(o[1..], k);
      if r == -1 then -1 else r + 1
  }

  /** `o[k]`: the value stored under `k`, or None for a missing key. */
  function Get<V>(o: seq<Slot<V>>, k: string): (r: Option<V>)
    ensures r.None? <==> KeyIndex(o, k) == -1
    ensures r.Some? ==> r.value == o[KeyIndex(o, k)].val
  {
    if o == [] then None
    else if o[0].key == k then Some(o[0].val)
    else Get(o[1..], k)
  }

  /** `o[k] = v`: an existing key keeps its place and gets the new value, a new
      key goes last. */
  function Put<V>(o: seq<Slot<V>>, k: string, v: V): (r: seq<Slot<V>>)
    ensures |r| == if KeyIndex(o, k) == -1 then |o| + 1 else |o|
    ensures forall j :: 0 <= j < |o| && j != KeyIndex(o, k) ==> r[j] == o[j]
    ensures r[if KeyIndex(o, k) == -1 then |o| else KeyIndex(o, k)] == Slot(k, v)
  {
    var i := KeyIndex(o, k);
    if i == -1 then o + [Slot(k, v)] else o[..i] + [Slot(k, v)] + o[i + 1..]
  }

  /** What a read sees after a write: the written value under the written key,
      the old value under every other key. */
  lemma PutGet<V>(o: seq<Slot<V>>, k: string, v: V, k2: string)
    ensures Get(Put(o, k, v), k2) == if k2 == k then Some(v) else Get(o, k2)
  {
    var r := Put(o, k, v);
    var i := KeyIndex(o, k);
    var p := if i == -1 then |o| else i;
    assert forall j :: 0 <= j < |r| && j != p ==> r[j] == o[j];
    if k2 == k {
      assert KeyIndex(r, k2) == p;
    } else {
      var i2 := KeyIndex(o, k2);
      if i2 == -1 {
        assert KeyIndex(r, k2) == -1;
      } else {
        assert KeyIndex(r, k2) == i2;
      }
    }
  }

  /** Writing the value already stored under a key leaves the object as it was,
      which makes "create if missing" idempotent. */
  lemma PutSame<V>(o: seq<Slot<V>>, k: string)
    requires Get(o, k).Some?
    ensures Put(o, k, Get(o, k).value) == o
  {
    var r := Put(o, k, Get(o, k).value);
    assert forall j :: 0 <= j < |o| ==> r[j] == o[j];
  }

  lemma PutKeepsUnique<V>(o: seq<Slot<V>>, k: string, v: V)
    requires UniqueKeys(o)
    ensures UniqueKeys(Put(o, k, v))
  {
    var r := Put(o, k, v);
    var i := KeyIndex(o, k);
    var p := if i == -1 then |o| else i;
    assert forall j :: 0 <= j < |r| && j != p ==> r[j] == o[j];
    assert forall j :: 0 <= j < |r| ==> r[j].key == if j == p then k else o[j].key;
  }

  /** With unique keys, the slot at position i is the one a read of its key finds. */
  lemma GetAt<V>(o: seq<Slot<V>>, i: nat)
    requires UniqueKeys(o) && i < |o|
    ensures Get(o, o[i].key) == Some(o[i].val)
  {
    assert KeyIndex(o, o[i].key) == i;
  }

  /** With unique keys, writing under the key at position i replaces that slot. */
  lemma PutAt<V>(o: seq<Slot<V>>, i: nat, v: V)
    requires UniqueKeys(o) && i < |o|
    ensures Put(o, o[i].key, v) == o[i := Slot(o[i].key, v)]
  {
    assert KeyIndex(o, o[i].key) == i;
  }

  /** Overwriting a key twice keeps only the second value. */
  lemma PutPut<V>(o: seq<Slot<V>>, k: string, v: V, w: V)
    ensures Put(Put(o, k, v), k, w) == Put(o, k, w)
  {
    var r := Put(o, k, v);
    var i := KeyIndex(o, k);
    if i == -1 {
      assert r == o + [Slot(k, v)];
      assert KeyIndex(r, k) == |o|;
      assert r[..|o|] == o && r[|o| + 1..] == [];
    } else {
      assert r == o[..i] + [Slot(k, v)] + o[i + 1..];
      assert KeyIndex(r, k) == i;
      assert r[..i] == o[..i] && r[i + 1..] == o[i + 1..];
    }
  }

  /** Every slot of `Put(o, k, v)` is a slot of `o` or the written one. */
  lemma PutSlots<V>(o: seq<Slot<V>>, k: string, v: V, j: nat)
    requires j < |Put(o, k, v)|
    ensures Put(o, k, v)[j] == Slot(k, v) || (j < |o| && Put(o, k, v)[j] == o[j])
  {
  }

  /** The values of all slots, each mapped to a list by f, concatenated in key order. */
  function Flat<V, U>(o: seq<Slot<V>>, f: V -> seq<U>): seq<U> {
    if o == [] then [] else f(o[0].val) + Flat(o[1..], f)
  }

  lemma {:induction false} FlatAppend<V, U>(a: seq<Slot<V>>, b: seq<Slot<V>>, f: V -> seq<U>)
    ensures Flat(a + b, f) == Flat(a, f) + Flat(b, f)
  {
    if a != [] {
      assert (a + b)[1..] == a[1..] + b;
      FlatAppend(a[1..], b, f);
    } else {
      assert a + b == b;
    }
  }

  /** Writing v under k replaces what the old slot contributed to the flattened
      list (nothing for a new key, given that f(dflt) is empty) by what v
      contributes. */
  lemma FlatPut<V, U>(o: seq<Slot<V>>, k: string, v: V, dflt: V, f: V -> seq<U>)
    requires f(dflt) == []
    ensures multiset(Flat(Put(o, k, v), f)) + multiset(f(Get(o, k).GetOr(dflt)))
         == multiset(Flat(o, f)) + multiset(f(v))
  {
    var i := KeyIndex(o, k);
    if i == -1 {
      FlatAppend(o, [Slot(k, v)], f);
      assert Flat([Slot(k, v)], f) == f(v);
    } else {
      assert o == o[..i] + [o[i]] + o[i + 1..];
      FlatAppend(o[..i] + [o[i]], o[i + 1..], f);
      FlatAppend(o[..i], [o[i]], f);
      FlatAppend(o[..i] + [Slot(k, v)], o[i + 1..], f);
      FlatAppend(o[..i], [Slot(k, v)], f);
      assert Flat([o[i]], f) == f(o[i].val);
      assert Flat([Slot(k, v)], f) == f(v);
    }
  }
}
