/** Concatenation and order-preserving deduplication of sequences; deletion from maps. */
module Collections {

  function Concat<T>(parts: seq<seq<T>>): seq<T> {
    if parts == [] then [] else parts[0] + Concat(parts[1..])
  }

  lemma {:induction false} ConcatAppend<T>(a: seq<seq<T>>, b: seq<seq<T>>)
    ensures Concat(a + b) == Concat(a) + Concat(b)
  {
    if a == [] {
      assert a + b == b;
    } else {
      ConcatAppend(a[1..], b);
      assert (a + b)[1..] == a[1..] + b;
      Associative(a[0], Concat(a[1..]), Concat(b));
    }
  }

  lemma Associative<T>(a: seq<T>, b: seq<T>, c: seq<T>)
    ensures a + b + c == a + (b + c)
  {
  }

  lemma SnocAppend<T>(a: seq<T>, b: seq<T>)
    requires b != []
    ensures (a + b)[..|a + b| - 1] == a + b[..|b| - 1] && (a + b)[|a + b| - 1] == b[|b| - 1]
  {
  }

  lemma ConcatSnoc<T>(a: seq<seq<T>>, x: seq<T>)
    ensures Concat(a + [x]) == Concat(a) + x
  {
    ConcatAppend(a, [x]);
    assert Concat([x]) == x;
  }

  /** Elements in order of first appearance, each once. */
  function Distinct<K(==)>(keys: seq<K>): seq<K> {
    if keys == [] then []
    else
      var init, last := Distinct(keys[..|keys| - 1]), keys[|keys| - 1];
      if last in init then init else init + [last]
  }

  lemma {:induction false} DistinctElements<K>(keys: seq<K>)
    ensures forall k :: k in Distinct(keys) <==> k in keys
    ensures forall i, j :: 0 <= i < j < |Distinct(keys)| ==> Distinct(keys)[i] != Distinct(keys)[j]
  {
    if keys != [] {
      DistinctElements(keys[..|keys| - 1]);
      assert keys == keys[..|keys| - 1] + [keys[|keys| - 1]];
    }
  }

  lemma {:induction false} DistinctHead<K>(keys: seq<K>)
    requires keys != []
    ensures Distinct(keys) != [] && Distinct(keys)[0] == keys[0]
  {
    if |keys| > 1 {
      DistinctHead(keys[..|keys| - 1]);
    } else {
      assert keys[..0] == [];
    }
  }

  lemma DistinctSnoc<K>(keys: seq<K>, k: K)
    ensures Distinct(keys + [k]) == if k in Distinct(keys) then Distinct(keys) else Distinct(keys) + [k]
  {
    assert (keys + [k])[..|keys|] == keys;
  }

  /** Go's delete(m, k): nothing happens when the key is missing. */
  function Delete<K, V>(m: map<K, V>, k: K): map<K, V> {
    map x | x in m && x != k :: m[x]
  }
}
