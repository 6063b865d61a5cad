/**
 * Python's `dict` as the core uses it: a finite map that remembers the order
 * in which keys were first inserted.  It is a sequence of key/value pairs;
 * assigning to a present key overwrites its value where it stands, assigning
 * to a new key appends it.  Iteration (`.items()`) follows the sequence.
 */
module PyDict {
  import opened Wrappers

  type Dict<K, V> = seq<(K, V)>

  /** The keys in iteration order (`list(d)`). */
  function Keys<K, V>(m: Dict<K, V>): seq<K>
  {
    seq(|m|, i requires 0 <= i < |m| => m[i].0)
  }

  /** No key occurs twice: every dict the program builds has this shape. */
  predicate NoDupKeys<K(==,!new), V>(m: Dict<K, V>)
  {
    forall i, j :: 0 <= i < j < |m| ==> m[i].0 != m[j].0
  }

  /** The position of key `k`, or -1 when `k` is absent. */
  function Find<K(==,!new), V>(m: Dict<K, V>, k: K): (i: int)
    ensures -1 <= i < |m|
    ensures 0 <= i ==> m[i].0 == k
    ensures forall j :: 0 <= j < |m| && (i < 0 || j < i) ==> m[j].0 != k
    decreases |m|
  {
    if m == [] then -1
    else if m[0].0 == k then 0
    else
      var i := Find(m[1..], k);
      if i < 0 then -1 else i + 1
  }

  /** `d.get(k)`: the value stored under `k`, if any. */
  function Get<K(==,!new), V>(m: Dict<K, V>, k: K): (r: Option<V>)
  {
    var i := Find(m, k);
    if i < 0 then None else Some(m[i].1)
  }

  /** `d.get(k)` finds a value exactly when `k` is a key, and the value is the one stored with it. */
  lemma GetMeaning<K(!new), V>(m: Dict<K, V>, k: K)
    ensures Get(m, k).None? <==> k !in Keys(m)
    ensures Get(m, k).Some? ==> (k, Get(m, k).value) in m
  {
    var i := Find(m, k);
    if i < 0 {
      assert forall j :: 0 <= j < |m| ==> Keys(m)[j] != k;
    } else {
      assert Keys(m)[i] == k && m[i] == (k, m[i].1);
    }
  }

  /** In a dict with distinct keys, the pair at position `j` is what its key looks up. */
  lemma GetAt<K(!new), V>(m: Dict<K, V>, j: int)
    requires NoDupKeys(m) && 0 <= j < |m|
    ensures Get(m, m[j].0) == Some(m[j].1)
  {
    var i := Find(m, m[j].0);
    assert i == j;
  }

  /** The keys of a dict that starts with a given pair. */
  lemma KeysCons<K, V>(p: (K, V), m: Dict<K, V>)
    ensures Keys([p] + m) == [p.0] + Keys(m)
  {
  }

  /** Looking a key up in a dict that starts with a given pair. */
  lemma GetCons<K(!new), V>(p: (K, V), m: Dict<K, V>, k: K)
    ensures Get([p] + m, k) == if p.0 == k then Some(p.1) else Get(m, k)
  {
    assert ([p] + m)[1..] == m;
    if p.0 != k {
      var i := Find(m, k);
      assert Find([p] + m, k) == if i < 0 then -1 else i + 1;
      if 0 <= i { assert ([p] + m)[i + 1] == m[i]; }
    }
  }

  /** A dict that starts with a given pair has distinct keys exactly when the rest does and lacks that key. */
  lemma NoDupCons<K(!new), V>(p: (K, V), m: Dict<K, V>)
    ensures NoDupKeys([p] + m) <==> NoDupKeys(m) && Get(m, p.0).None?
  {
    var r := [p] + m;
    assert forall i :: 0 <= i < |m| ==> r[i + 1] == m[i];
    GetMeaning(m, p.0);
    if NoDupKeys(r) {
      assert NoDupKeys(m) by {
        forall i, j | 0 <= i < j < |m| ensures m[i].0 != m[j].0 {
          assert r[i + 1] == m[i] && r[j + 1] == m[j];
        }
      }
      assert p.0 !in Keys(m) by {
        forall i | 0 <= i < |m| ensures Keys(m)[i] != p.0 {
          assert r[0].0 != r[i + 1].0;
        }
      }
    }
    if NoDupKeys(m) && Get(m, p.0).None? {
      forall i, j | 0 <= i < j < |r| ensures r[i].0 != r[j].0 {
        assert Keys(m)[j - 1] == r[j].0;
        if 0 < i { assert r[i] == m[i - 1]; }
      }
    }
  }

  /**
   * `d[k] = v`.  Afterwards `k` maps to `v`, every other key keeps its value,
   * and the key order is unchanged unless `k` was new, in which case it comes last.
   */
  function Put<K(==,!new), V>(m: Dict<K, V>, k: K, v: V): (r: Dict<K, V>)
    ensures Get(r, k) == Some(v)
    ensures forall k' {:trigger Get(r, k')} :: k' != k ==> Get(r, k') == Get(m, k')
    ensures NoDupKeys(m) ==> NoDupKeys(r)
    decreases |m|
  {
    if m == [] then
      forall k' ensures Get([(k, v)], k') == if k' == k then Some(v) else None {
        GetCons((k, v), [], k');
      }
      [(k, v)]
    else
      var tail := m[1..];
      assert m == [m[0]] + tail;
      NoDupCons(m[0], tail);
      if m[0].0 == k then
        var r := [(k, v)] + tail;
        forall k' ensures Get(r, k') == if k' == k then Some(v) else Get(m, k') {
          GetCons((k, v), tail, k');
          GetCons(m[0], tail, k');
        }
        NoDupCons((k, v), tail);
        r
      else
        var rest := Put(tail, k, v);
        var r := [m[0]] + rest;
        forall k' ensures Get(r, k') == if k' == k then Some(v) else Get(m, k') {
          GetCons(m[0], rest, k');
          GetCons(m[0], tail, k');
        }
        NoDupCons(m[0], rest);
        r
  }

  /** The key order after `d[k] = v`: unchanged when `k` was present, `k` appended otherwise. */
  lemma {:induction false} PutKeys<K(!new), V>(m: Dict<K, V>, k: K, v: V)
    ensures Keys(Put(m, k, v)) == if k in Keys(m) then Keys(m) else Keys(m) + [k]
    decreases |m|
  {
    if m == [] {
      assert Keys([(k, v)]) == [k];
    } else {
      var tail := m[1..];
      assert m == [m[0]] + tail;
      KeysCons(m[0], tail);
      if m[0].0 == k {
        KeysCons((k, v), tail);
      } else {
        PutKeys(tail, k, v);
        KeysCons(m[0], Put(tail, k, v));
      }
    }
  }

  /**
   * `d.update(other)`: the pairs of `other` are assigned in its order, so a
   * key of `other` ends up with `other`'s value and every other key keeps
   * the value it had.
   */
  function Update<K(==,!new), V>(m: Dict<K, V>, other: Dict<K, V>): (r: Dict<K, V>)
    requires NoDupKeys(other)
    ensures forall k {:trigger Get(r, k)} :: Get(r, k) == if Get(other, k).Some? then Get(other, k) else Get(m, k)
    ensures NoDupKeys(m) ==> NoDupKeys(r)
    decreases |other|
  {
    if other == [] then m
    else
      var rest := other[1..];
      assert other == [other[0]] + rest;
      NoDupCons(other[0], rest);
      var r := Update(Put(m, other[0].0, other[0].1), rest);
      forall k ensures Get(other, k) == if k == other[0].0 then Some(other[0].1) else Get(rest, k) {
        GetCons(other[0], rest, k);
      }
      r
  }
}
