/**
 * PHP arrays with string keys, as the code uses them for listings and for
 * the storage registry: values by key, plus the order in which keys were
 * first inserted (an assignment to an existing key keeps its place).
 */
module OrderedMaps {

  /** `keys` without any occurrence of `k`, order kept. */
  function Without(keys: seq<string>, k: string): (r: seq<string>)
    ensures forall x :: x in r <==> x in keys && x != k
    ensures |r| <= |keys|
  {
    if keys == [] then []
    else (if keys[0] == k then [] else [keys[0]]) + Without(keys[1..], k)
  }

  lemma {:induction false} WithoutDistinct(keys: seq<string>, k: string)
    requires Distinct(keys)
    ensures Distinct(Without(keys, k))
  {
    if keys != [] {
      var tail := keys[1..];
      assert Distinct(tail) by {
        forall i, j | 0 <= i < j < |tail| ensures tail[i] != tail[j] {
          assert tail[i] == keys[i + 1] && tail[j] == keys[j + 1];
        }
      }
      WithoutDistinct(tail, k);
      var r := Without(tail, k);
      assert keys[0] !in tail by {
        forall j | 0 <= j < |tail| ensures tail[j] != keys[0] {
          assert tail[j] == keys[j + 1];
        }
      }
      if keys[0] != k {
        var w := [keys[0]] + r;
        forall i, j | 0 <= i < j < |w| ensures w[i] != w[j] {
          if i == 0 {
            assert w[j] == r[j - 1];
          } else {
            assert w[i] == r[i - 1] && w[j] == r[j - 1];
          }
        }
      }
    }
  }

  predicate Distinct(keys: seq<string>) {
    forall i, j :: 0 <= i < j < |keys| ==> keys[i] != keys[j]
  }

  datatype OMap<V> = OMap(keys: seq<string>, values: map<string, V>)
  {
    /** Every key appears once in the order, and the order lists exactly the keys. */
    predicate Valid() {
      Distinct(keys) && values.Keys == set k | k in keys
    }

    /** The values in key order. */
    function Values(): (vs: seq<V>)
      requires Valid()
      ensures |vs| == |keys| && forall i :: 0 <= i < |keys| ==> vs[i] == values[keys[i]]
    {
      seq(|keys|, i requires 0 <= i < |keys| => values[keys[i]])
    }

    /** `$a[$k] = $v` */
    function Put(k: string, v: V): (r: OMap<V>)
      requires Valid()
      ensures r.Valid() && r.values == values[k := v]
      ensures r.keys == if k in values then keys else keys + [k]
    {
      if k in values then OMap(keys, values[k := v]) else OMap(keys + [k], values[k := v])
    }

    /** `unset($a[$k])` */
    function Remove(k: string): (r: OMap<V>)
      requires Valid()
      ensures r.Valid() && r.values == values - {k}
      ensures r.keys == Without(keys, k)
    {
      WithoutDistinct(keys, k);
      OMap(Without(keys, k), values - {k})
    }
  }

  function Empty<V>(): (r: OMap<V>)
    ensures r.Valid() && r.keys == [] && r.values == map[]
  {
    OMap([], map[])
  }

  /** Replacing a value leaves the order alone; a new key goes last. */
  lemma PutOrder<V>(m: OMap<V>, k: string, v: V)
    requires m.Valid()
    ensures k in m.values ==> m.Put(k, v).keys == m.keys
    ensures k !in m.values ==> m.Put(k, v).keys[..|m.keys|] == m.keys && m.Put(k, v).keys[|m.keys|] == k
  {
  }
}
