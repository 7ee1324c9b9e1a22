/**
 * A JavaScript plain object used as a dictionary: string keys in insertion
 * order (the order `Object.keys` and `Object.values` report) and the value
 * stored under each key.
 */
module Dicts {

  type Key = string

  ghost predicate Distinct(s: seq<Key>) {
    forall i, j :: 0 <= i < j < |s| ==> s[i] != s[j]
  }

  /** `Array.prototype.indexOf`: the first position of `k`, or -1. */
  function IndexOf(s: seq<Key>, k: Key): (i: int)
    ensures -1 <= i < |s|
    ensures i == -1 <==> k !in s
    ensures 0 <= i ==> s[i] == k && k !in s[..i]
  {
    if |s| == 0 then -1
    else if s[0] == k then 0
    else
      var j := IndexOf(s[1..], k);
      if j == -1 then -1
      else
        assert s[..j + 1] == [s[0]] + s[1..][..j];
        j + 1
  }

  lemma IndexOfDistinct(s: seq<Key>, i: nat)
    requires Distinct(s) && i < |s|
    ensures IndexOf(s, s[i]) == i
  {
  }

  /** Putting a key that does not occur in front of distinct keys keeps them distinct. */
  lemma ConsDistinct(x: Key, rest: seq<Key>)
    requires Distinct(rest) && x !in rest
    ensures Distinct([x] + rest)
  {
    forall i, j | 0 <= i < j < |[x] + rest| ensures ([x] + rest)[i] != ([x] + rest)[j] {
      if i == 0 { assert ([x] + rest)[j] in rest; }
    }
  }

  /** `indexOf` on a concatenation: a key of the front is found there, any other key in the back, offset by the front. */
  lemma {:induction false} IndexOfConcat(s: seq<Key>, t: seq<Key>, k: Key)
    ensures k in s ==> IndexOf(s + t, k) == IndexOf(s, k)
    ensures k !in s && k in t ==> IndexOf(s + t, k) == |s| + IndexOf(t, k)
  {
    if |s| > 0 && s[0] != k {
      assert (s + t)[1..] == s[1..] + t;
      IndexOfConcat(s[1..], t, k);
    } else if |s| == 0 {
      assert s + t == t;
    }
  }

  /** `s` with every occurrence of `k` taken out, the rest in order. */
  function Without(s: seq<Key>, k: Key): (r: seq<Key>)
    ensures forall x :: x in r <==> x in s && x != k
    ensures k !in s ==> r == s
  {
    if |s| == 0 then []
    else if s[0] == k then Without(s[1..], k)
    else
      assert s == [s[0]] + s[1..];
      [s[0]] + Without(s[1..], k)
  }

  /** Taking a key out of distinct keys leaves them distinct. */
  lemma {:induction false} WithoutDistinct(s: seq<Key>, k: Key)
    requires Distinct(s)
    ensures Distinct(Without(s, k))
  {
    if |s| > 0 {
      assert Distinct(s[1..]);
      WithoutDistinct(s[1..], k);
      if s[0] != k {
        assert s[0] !in s[1..];
        ConsDistinct(s[0], Without(s[1..], k));
      }
    }
  }

  /** In distinct keys, the key at position `i` does not occur after it. */
  lemma DistinctTail(s: seq<Key>, i: nat)
    requires Distinct(s) && i < |s|
    ensures s[i] !in s[i + 1..]
  {
    var t := s[i + 1..];
    forall m | 0 <= m < |t| ensures t[m] != s[i] {
      assert t[m] == s[i + 1 + m];
    }
  }

  /** When `k` occurs only once, at `i`, taking it out closes the gap there. */
  lemma {:induction false} WithoutSplice(s: seq<Key>, k: Key, i: nat)
    requires i < |s| && s[i] == k && k !in s[..i] && k !in s[i + 1..]
    ensures Without(s, k) == s[..i] + s[i + 1..]
  {
    var t := s[1..];
    if i == 0 {
      assert s[..0] + t == t;
    } else {
      assert s[0] in s[..i];
      assert t[..i - 1] == s[1..i] && t[i..] == s[i + 1..];
      assert t[i - 1] == k;
      WithoutSplice(t, k, i - 1);
      assert s[..i] == [s[0]] + t[..i - 1];
    }
  }

  /** The keys of `s` that are not in `taken`, in the order of `s`. */
  function KeysNotIn(s: seq<Key>, taken: set<Key>): (r: seq<Key>)
    ensures forall x :: x in r <==> x in s && x !in taken
    ensures Distinct(s) ==> Distinct(r)
  {
    if |s| == 0 then []
    else
      var rest := KeysNotIn(s[1..], taken);
      if s[0] in taken then rest
      else
        assert Distinct(s) ==> Distinct([s[0]] + rest) by {
          if Distinct(s) {
            assert Distinct(s[1..]) && s[0] !in s[1..];
            ConsDistinct(s[0], rest);
          }
        }
        [s[0]] + rest
  }

  /** The keys of `r` occur in `s` in the order they have in `r`. */
  ghost predicate InOrderOf(r: seq<Key>, s: seq<Key>) {
    forall i, j :: 0 <= i < j < |r| ==> IndexOf(s, r[i]) < IndexOf(s, r[j])
  }

  /** A key of `t` other than `x` sits one place further in `[x] + t`. */
  lemma IndexOfCons(x: Key, t: seq<Key>, y: Key)
    requires y in t && y != x
    ensures IndexOf([x] + t, y) == 1 + IndexOf(t, y)
  {
    assert ([x] + t)[1..] == t;
  }

  /** Putting a key in front of `t` keeps the order of keys that all come from `t`. */
  lemma InOrderShift(r: seq<Key>, x: Key, t: seq<Key>)
    requires InOrderOf(r, t) && x !in t && forall y :: y in r ==> y in t
    ensures InOrderOf(r, [x] + t)
  {
    forall i, j | 0 <= i < j < |r| ensures IndexOf([x] + t, r[i]) < IndexOf([x] + t, r[j]) {
      IndexOfCons(x, t, r[i]);
      IndexOfCons(x, t, r[j]);
    }
  }

  /** The front key of `[x] + t` comes before all keys from `t`. */
  lemma InOrderCons(r: seq<Key>, x: Key, t: seq<Key>)
    requires InOrderOf(r, t) && x !in t && forall y :: y in r ==> y in t
    ensures InOrderOf([x] + r, [x] + t)
  {
    InOrderShift(r, x, t);
    var u, v := [x] + r, [x] + t;
    forall i, j | 0 <= i < j < |u| ensures IndexOf(v, u[i]) < IndexOf(v, u[j]) {
      assert u[j] == r[j - 1];
      if i > 0 {
        assert u[i] == r[i - 1];
      } else {
        assert IndexOf(v, x) == 0;
        IndexOfCons(x, t, r[j - 1]);
      }
    }
  }

  /** Appending to `t` keeps the order of keys that all come from `t`. */
  lemma InOrderExtend(r: seq<Key>, t: seq<Key>, u: seq<Key>)
    requires InOrderOf(r, t) && forall y :: y in r ==> y in t
    ensures InOrderOf(r, t + u)
  {
    forall i, j | 0 <= i < j < |r| ensures IndexOf(t + u, r[i]) < IndexOf(t + u, r[j]) {
      IndexOfConcat(t, u, r[i]);
      IndexOfConcat(t, u, r[j]);
    }
  }

  /** A key new to `t`, appended to both, comes after all keys from `t`. */
  lemma InOrderSnoc(r: seq<Key>, t: seq<Key>, x: Key)
    requires InOrderOf(r, t) && x !in t && forall y :: y in r ==> y in t
    ensures InOrderOf(r + [x], t + [x])
  {
    InOrderExtend(r, t, [x]);
    IndexOfConcat(t, [x], x);
    var u, v := r + [x], t + [x];
    forall i, j | 0 <= i < j < |u| ensures IndexOf(v, u[i]) < IndexOf(v, u[j]) {
      assert u[i] == r[i];
      if j < |r| {
        assert u[j] == r[j];
      } else {
        IndexOfConcat(t, [x], r[i]);
      }
    }
  }

  /** Over distinct keys, the kept keys are in the order of `s`. */
  lemma {:induction false} KeysNotInOrder(s: seq<Key>, taken: set<Key>)
    requires Distinct(s)
    ensures InOrderOf(KeysNotIn(s, taken), s)
  {
    if |s| > 0 {
      var t := s[1..];
      assert Distinct(t) && s[0] !in t && s == [s[0]] + t;
      KeysNotInOrder(t, taken);
      var rest := KeysNotIn(t, taken);
      if s[0] in taken {
        InOrderShift(rest, s[0], t);
      } else {
        InOrderCons(rest, s[0], t);
      }
    }
  }

  datatype Dict<V> = Dict(keys: seq<Key>, entries: map<Key, V>) {

    /** The key list has no repeats and lists exactly the keys with an entry. */
    ghost predicate Valid() {
      Distinct(keys) && forall k :: k in entries <==> k in keys
    }

    /**
     * `Vue.set(d, k, v)` (and `d[k] = v`): an existing key keeps its place,
     * a new key is appended.
     */
    function Put(k: Key, v: V): (d: Dict<V>)
      requires Valid()
      ensures d.Valid()
      ensures d.entries == entries[k := v]
      ensures d.keys == if k in entries then keys else keys + [k]
    {
      if k in entries then Dict(keys, entries[k := v])
      else
        assert Distinct(keys + [k]) by {
          forall i, j | 0 <= i < j < |keys + [k]| ensures (keys + [k])[i] != (keys + [k])[j] {
            if j == |keys| { assert (keys + [k])[i] in keys; }
          }
        }
        Dict(keys + [k], entries[k := v])
    }

    /** `Vue.delete(d, k)`: the key leaves its place, the others keep their order. */
    function Delete(k: Key): (d: Dict<V>)
      requires Valid()
      ensures d.Valid()
      ensures d.entries == entries - {k}
      ensures k !in entries ==> d == this
      ensures k in entries ==> d.keys == keys[..IndexOf(keys, k)] + keys[IndexOf(keys, k) + 1..]
    {
      WithoutDistinct(keys, k);
      if k in entries then
        DistinctTail(keys, IndexOf(keys, k));
        WithoutSplice(keys, k, IndexOf(keys, k));
        Dict(Without(keys, k), entries - {k})
      else Dict(Without(keys, k), entries - {k})
    }

    /**
     * The object spread `{...this, ...other}`: keys of `this` first in their
     * order, then the keys only `other` has in its order; on a shared key the
     * value of `other` wins.
     */
    function Merge(other: Dict<V>): (d: Dict<V>)
      requires Valid() && other.Valid()
      ensures d.Valid()
      ensures d.entries.Keys == entries.Keys + other.entries.Keys
      ensures forall k :: k in other.entries ==> d.entries[k] == other.entries[k]
      ensures forall k :: k in entries && k !in other.entries ==> d.entries[k] == entries[k]
      ensures |d.keys| >= |keys| && d.keys[..|keys|] == keys
      ensures forall k :: k in other.keys && k !in entries ==> k in d.keys[|keys|..]
      ensures d.keys[|keys|..] == KeysNotIn(other.keys, entries.Keys)
      ensures InOrderOf(d.keys[|keys|..], other.keys)
    {
      var added := KeysNotIn(other.keys, entries.Keys);
      KeysNotInOrder(other.keys, entries.Keys);
      assert Distinct(keys + added) by {
        forall i, j | 0 <= i < j < |keys + added| ensures (keys + added)[i] != (keys + added)[j] {
          if i < |keys| <= j { assert (keys + added)[j] in added; }
        }
      }
      assert (keys + added)[..|keys|] == keys;
      assert (keys + added)[|keys|..] == added;
      Dict(keys + added, entries + other.entries)
    }

    /** `Object.values`: the stored values in key order. */
    function Values(): (vs: seq<V>)
      requires Valid()
      ensures |vs| == |keys|
      ensures forall i :: 0 <= i < |keys| ==> vs[i] == entries[keys[i]]
    {
      seq(|keys|, i requires 0 <= i < |keys| => entries[keys[i]])
    }
  }

  /** The object literal `{}`. */
  function Empty<V>(): (d: Dict<V>)
    ensures d.Valid() && d.keys == [] && d.entries == map[]
  {
    Dict([], map[])
  }

  /** Putting a new key and deleting it again gives back the dictionary. */
  lemma {:induction false} DeleteAfterPut<V>(d: Dict<V>, k: Key, v: V)
    requires d.Valid() && k !in d.entries
    ensures d.Put(k, v).Delete(k) == d
  {
    var p := d.Put(k, v);
    assert p.keys == d.keys + [k];
    IndexOfDistinct(p.keys, |d.keys|);
    assert p.keys[..|d.keys|] == d.keys;
    assert p.Delete(k).entries == d.entries;
  }

  /** Deleting a key and putting it back with its old value gives back the same entries. */
  lemma {:induction false} PutAfterDelete<V>(d: Dict<V>, k: Key)
    requires d.Valid() && k in d.entries
    ensures d.Delete(k).Put(k, d.entries[k]).entries == d.entries
    ensures d.Delete(k).Put(k, d.entries[k]).keys == Without(d.keys, k) + [k]
  {
  }
}
