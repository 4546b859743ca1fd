/**
 * PHP's ordered arrays as association lists `seq<(K, V)>`: lookup by key,
 * `$a[$k] = $v` (overwrite in place, or append a new key at the end),
 * `unset($a[$k])` and `array_search`.
 */
module PhpArrays {
  import opened Results

  /** An array key: PHP keys are integers or strings. */
  datatype Key = IntKey(n: int) | StrKey(name: string)

  function Keys<K, V>(a: seq<(K, V)>): set<K>
  {
    set i | 0 <= i < |a| :: a[i].0
  }

  function Values<K, V>(a: seq<(K, V)>): set<V>
  {
    set i | 0 <= i < |a| :: a[i].1
  }

  lemma KeysCons<K, V>(x: (K, V), s: seq<(K, V)>)
    ensures Keys([x] + s) == {x.0} + Keys(s)
    ensures Values([x] + s) == {x.1} + Values(s)
  {
    var t := [x] + s;
    assert forall i :: 0 <= i < |s| ==> t[i + 1] == s[i];
    assert t[0] == x;
  }

  /** Every key occurs once, as in every PHP array. */
  predicate DistinctKeys<K(==), V>(a: seq<(K, V)>)
  {
    forall i, j :: 0 <= i < j < |a| ==> a[i].0 != a[j].0
  }

  /** `isset($a[$k]) ? $a[$k] : null` for arrays whose values are never null. */
  function Get<K(==), V>(a: seq<(K, V)>, k: K): (r: Option<V>)
    ensures r.Some? <==> k in Keys(a)
    ensures r.Some? ==> exists i :: 0 <= i < |a| && a[i] == (k, r.value)
  {
    if |a| == 0 then None
    else if a[0].0 == k then Some(a[0].1)
    else
      var r := Get(a[1..], k);
      assert Keys(a) == {a[0].0} + Keys(a[1..]);
      assert r.Some? ==> exists i :: 0 <= i < |a| && a[i] == (k, r.value) by {
        if r.Some? {
          var i :| 0 <= i < |a[1..]| && a[1..][i] == (k, r.value);
          assert a[i + 1] == (k, r.value);
        }
      }
      r
  }

  /** `$a[$k] = $v`: an existing key keeps its position, a new key is appended. */
  function Put<K(==,!new), V>(a: seq<(K, V)>, k: K, v: V): (r: seq<(K, V)>)
    ensures Get(r, k) == Some(v)
    ensures forall j :: j != k ==> Get(r, j) == Get(a, j)
    ensures Keys(r) == Keys(a) + {k}
    ensures Values(r) <= Values(a) + {v}
  {
    if |a| == 0 then [(k, v)]
    else if a[0].0 == k then
      KeysCons(a[0], a[1..]);
      KeysCons((k, v), a[1..]);
      assert a == [a[0]] + a[1..];
      [(k, v)] + a[1..]
    else
      var rest := Put(a[1..], k, v);
      KeysCons(a[0], a[1..]);
      KeysCons(a[0], rest);
      assert a == [a[0]] + a[1..];
      [a[0]] + rest
  }

  /** `$a[$k] = $v` on an existing key overwrites the entry in place: every key keeps its position. */
  lemma {:induction false} PutInPlace<K(!new), V>(a: seq<(K, V)>, k: K, v: V)
    requires k in Keys(a)
    ensures |Put(a, k, v)| == |a|
    ensures forall i :: 0 <= i < |a| ==> Put(a, k, v)[i].0 == a[i].0
  {
    if a[0].0 != k {
      KeysCons(a[0], a[1..]);
      assert a == [a[0]] + a[1..];
      PutInPlace(a[1..], k, v);
    }
  }

  /** `$a[$k] = $v` on a new key appends the entry at the end. */
  lemma {:induction false} PutAppends<K(!new), V>(a: seq<(K, V)>, k: K, v: V)
    requires k !in Keys(a)
    ensures Put(a, k, v) == a + [(k, v)]
  {
    if |a| > 0 {
      KeysCons(a[0], a[1..]);
      assert a == [a[0]] + a[1..];
      PutAppends(a[1..], k, v);
    }
  }

  /** `$a[$k] = $v` keeps the keys distinct. */
  lemma {:induction false} PutDistinct<K(!new), V>(a: seq<(K, V)>, k: K, v: V)
    requires DistinctKeys(a)
    ensures DistinctKeys(Put(a, k, v))
  {
    if |a| > 0 && a[0].0 != k {
      KeysCons(a[0], a[1..]);
      assert a == [a[0]] + a[1..];
      assert a[0].0 !in Keys(a[1..]);
      PutDistinct(a[1..], k, v);
      var r := Put(a, k, v);
      assert r == [a[0]] + Put(a[1..], k, v);
      assert a[0].0 !in Keys(Put(a[1..], k, v));
    }
  }

  /** `unset($a[$k])`. */
  function Unset<K(==,!new), V>(a: seq<(K, V)>, k: K): (r: seq<(K, V)>)
    ensures Get(r, k) == None
    ensures forall j :: j != k ==> Get(r, j) == Get(a, j)
    ensures Keys(r) == Keys(a) - {k}
    ensures Values(r) <= Values(a)
  {
    if |a| == 0 then a
    else
      var rest := Unset(a[1..], k);
      KeysCons(a[0], a[1..]);
      assert a == [a[0]] + a[1..];
      if a[0].0 == k then rest
      else
        KeysCons(a[0], rest);
        [a[0]] + rest
  }

  /** Unsetting a key the array lacks changes nothing. */
  lemma {:induction false} UnsetAbsent<K(!new), V>(a: seq<(K, V)>, k: K)
    requires k !in Keys(a)
    ensures Unset(a, k) == a
  {
    if |a| > 0 {
      KeysCons(a[0], a[1..]);
      assert a == [a[0]] + a[1..];
      UnsetAbsent(a[1..], k);
    }
  }

  /** `unset($a[$k])` on a key at position i removes that one entry and keeps
      every other entry in its order. */
  lemma {:induction false} UnsetAt<K(!new), V>(a: seq<(K, V)>, k: K, i: int)
    requires DistinctKeys(a) && 0 <= i < |a| && a[i].0 == k
    ensures Unset(a, k) == a[..i] + a[i + 1..]
  {
    KeysCons(a[0], a[1..]);
    assert a == [a[0]] + a[1..];
    var tail := a[1..];
    assert DistinctKeys(tail);
    if i == 0 {
      assert k !in Keys(tail);
      UnsetAbsent(tail, k);
    } else {
      assert a[0].0 != k;
      UnsetAt(tail, k, i - 1);
      assert a[..i] == [a[0]] + tail[..i - 1];
      assert a[i + 1..] == tail[i..];
    }
  }

  /** `unset($a[$k])` keeps the keys distinct. */
  lemma {:induction false} UnsetDistinct<K(!new), V>(a: seq<(K, V)>, k: K)
    requires DistinctKeys(a)
    ensures DistinctKeys(Unset(a, k))
  {
    if |a| > 0 {
      KeysCons(a[0], a[1..]);
      assert a == [a[0]] + a[1..];
      assert DistinctKeys(a[1..]);
      UnsetDistinct(a[1..], k);
      if a[0].0 != k {
        var rest := Unset(a[1..], k);
        assert a[0].0 !in Keys(rest);
        KeysCons(a[0], rest);
        assert Unset(a, k) == [a[0]] + rest;
        forall i, j | 0 <= i < j < |rest| + 1 ensures ([a[0]] + rest)[i].0 != ([a[0]] + rest)[j].0 {
          if i == 0 {
            assert ([a[0]] + rest)[j].0 == rest[j - 1].0;
            assert rest[j - 1].0 in Keys(rest);
          }
        }
      }
    }
  }

  /** `array_search($v, $a)`: the key of the first entry whose value is `v`,
      or `false` (here None) when there is none. */
  function ArraySearch<K, V(==)>(a: seq<(K, V)>, v: V): (r: Option<K>)
    ensures r.None? <==> v !in Values(a)
    ensures r.Some? ==> exists i :: 0 <= i < |a| && a[i] == (r.value, v) && forall j :: 0 <= j < i ==> a[j].1 != v
  {
    if |a| == 0 then None
    else if a[0].1 == v then
      assert a[0] == (a[0].0, v);
      Some(a[0].0)
    else
      var r := ArraySearch(a[1..], v);
      assert Values(a) == {a[0].1} + Values(a[1..]);
      assert r.Some? ==> exists i :: 0 <= i < |a| && a[i] == (r.value, v) && forall j :: 0 <= j < i ==> a[j].1 != v by {
        if r.Some? {
          var i :| 0 <= i < |a[1..]| && a[1..][i] == (r.value, v) && forall j :: 0 <= j < i ==> a[1..][j].1 != v;
          assert a[i + 1] == (r.value, v);
          assert forall j :: 0 <= j < i + 1 ==> a[j].1 != v by {
            forall j | 0 <= j < i + 1 ensures a[j].1 != v {
              if j > 0 {
                assert a[j] == a[1..][j - 1];
              }
            }
          }
        }
      }
      r
  }

  /** Looking a key up in an array extended at the end. */
  lemma {:induction false} GetSnoc<K, V>(a: seq<(K, V)>, x: (K, V), k: K)
    ensures Get(a + [x], k) == if Get(a, k).Some? then Get(a, k) else if x.0 == k then Some(x.1) else None
  {
    if |a| > 0 {
      assert (a + [x])[1..] == a[1..] + [x];
      GetSnoc(a[1..], x, k);
    }
  }
}
