/** JavaScript `Map`s iterate in insertion order, and the game's tie-breaks
    depend on that order. A map is modelled by its entries in insertion
    order; `set` on a present key overwrites the value in place, `set` on a
    new key appends, `delete` removes the entry. A map whose values are only
    looked up by key is modelled by its key sequence alone. */
module OrderedMaps {
  import opened Outcomes

  /** Every key in the game is an integer id. */
  type Key = int

  type OrderedMap<V> = seq<(Key, V)>

  function Keys<V>(m: OrderedMap<V>): (ks: seq<Key>)
    ensures |ks| == |m|
    ensures forall i :: 0 <= i < |m| ==> ks[i] == m[i].0
  {
    if m == [] then [] else [m[0].0] + Keys(m[1..])
  }

  /** No key occurs twice. */
  ghost predicate Unique(ks: seq<Key>) {
    forall i, j :: 0 <= i < j < |ks| ==> ks[i] != ks[j]
  }

  /** `Map.get` */
  function Get<V>(m: OrderedMap<V>, k: Key): (r: Option<V>)
    ensures r.Some? <==> k in Keys(m)
    ensures r.Some? ==> exists i :: 0 <= i < |m| && m[i] == (k, r.value)
  {
    if m == [] then None
    else if m[0].0 == k then Some(m[0].1)
    else
      var r := Get(m[1..], k);
      assert r.Some? ==> m[1..][0] == m[1];
      r
  }

  /** `Map.set` on the key sequence: a present key keeps its position. */
  function Insert(ks: seq<Key>, k: Key): (r: seq<Key>)
  {
    if k in ks then ks else ks + [k]
  }

  /** `Map.delete` on the key sequence. */
  function Delete(ks: seq<Key>, k: Key): (r: seq<Key>)
    ensures forall x :: x in r <==> x in ks && x != k
    ensures |r| <= |ks|
  {
    if ks == [] then []
    else if ks[0] == k then Delete(ks[1..], k)
    else [ks[0]] + Delete(ks[1..], k)
  }

  /** `Map.set` */
  function Put<V>(m: OrderedMap<V>, k: Key, v: V): (r: OrderedMap<V>)
    ensures Keys(r) == Insert(Keys(m), k)
  {
    if m == [] then [(k, v)]
    else if m[0].0 == k then [(k, v)] + m[1..]
    else
      var tail := Put(m[1..], k, v);
      assert Keys(m) == [m[0].0] + Keys(m[1..]);
      assert Keys([m[0]] + tail) == [m[0].0] + Keys(tail);
      [m[0]] + tail
  }

  /** After `set(k, v)`, `get(k)` yields `v` and every other key reads as before. */
  lemma {:induction false} GetPut<V>(m: OrderedMap<V>, k: Key, v: V, k': Key)
    ensures Get(Put(m, k, v), k') == if k' == k then Some(v) else Get(m, k')
  {
    if m != [] && m[0].0 != k {
      GetPut(m[1..], k, v, k');
      var r := Put(m, k, v);
      assert r[1..] == Put(m[1..], k, v);
    }
  }

  /** With unique keys, every entry is what `get` finds for its key. */
  lemma GetEntry<V>(m: OrderedMap<V>, k: Key, v: V)
    requires Unique(Keys(m)) && (k, v) in m
    ensures Get(m, k) == Some(v)
  {
    var j :| 0 <= j < |m| && m[j] == (k, v);
    assert Keys(m)[j] == k;
    var i :| 0 <= i < |m| && m[i] == (k, Get(m, k).value);
    assert Keys(m)[i] == k;
  }

  lemma {:induction false} InsertKeepsUnique(ks: seq<Key>, k: Key)
    requires Unique(ks)
    ensures Unique(Insert(ks, k))
    ensures k in Insert(ks, k)
  {
  }

  lemma {:induction false} DeleteKeepsUnique(ks: seq<Key>, k: Key)
    requires Unique(ks)
    ensures Unique(Delete(ks, k))
  {
    if ks != [] {
      DeleteKeepsUnique(ks[1..], k);
      if ks[0] != k {
        var r := Delete(ks, k);
        assert r == [ks[0]] + Delete(ks[1..], k);
        forall i, j | 0 <= i < j < |r| ensures r[i] != r[j] {
          if i == 0 {
            assert r[j] in Delete(ks[1..], k);
            assert r[j] in ks[1..];
          }
        }
      }
    }
  }

  /** Deleting a key that is not present changes nothing. */
  lemma {:induction false} DeleteAbsent(ks: seq<Key>, k: Key)
    requires k !in ks
    ensures Delete(ks, k) == ks
  {
    if ks != [] {
      DeleteAbsent(ks[1..], k);
    }
  }

  /** `set` followed by `delete` of the same key is a plain `delete`: the
      position `set` gives a new key is at the end, where `delete` finds it. */
  lemma {:induction false} InsertThenDelete(ks: seq<Key>, k: Key)
    ensures Delete(Insert(ks, k), k) == Delete(ks, k)
  {
    if k !in ks {
      DeleteAppend(ks, k);
      DeleteAbsent(ks, k);
    }
  }

  lemma {:induction false} DeleteAppend(ks: seq<Key>, k: Key)
    requires k !in ks
    ensures Delete(ks + [k], k) == ks
  {
    if ks == [] {
      assert [k][1..] == [];
    } else {
      assert (ks + [k])[1..] == ks[1..] + [k];
      DeleteAppend(ks[1..], k);
    }
  }
}
