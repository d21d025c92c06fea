/** An insertion-ordered association list: a JavaScript `Map` (the answer
    sheet, keyed by question id) or the own properties of a plain object
    (request headers). Entries keep their insertion order, `get` finds the
    entry for a key, and `set` replaces an existing entry in place or
    appends a new one at the end. */
module OrderedMap {
  import opened Common

  predicate DistinctKeys<K(==), V>(m: seq<(K, V)>) {
    forall i, j :: 0 <= i < j < |m| ==> m[i].0 != m[j].0
  }

  function Keys<K(==), V>(m: seq<(K, V)>): set<K> {
    set i | 0 <= i < |m| :: m[i].0
  }

  /** `map.get(k)`: the value of the first entry whose key is `k`, if any. */
  function Get<K(==), V>(m: seq<(K, V)>, k: K): (r: Option<V>)
    ensures r.Some? <==> k in Keys(m)
    ensures r.Some? ==> exists i :: 0 <= i < |m| && m[i] == (k, r.value) && KeyAbsent(m[..i], k)
  {
    if |m| == 0 then None
    else if m[0].0 == k then
      assert m[..0] == [];
      Some(m[0].1)
    else
      assert Keys(m) == {m[0].0} + Keys(m[1..]) by {
        KeysCons(m[0], m[1..]);
        assert [m[0]] + m[1..] == m;
      }
      var r := Get(m[1..], k);
      if r.Some? then FirstEntryShift(m, k, r.value); r else r
  }

  /** A first entry for `k` in the tail is a first entry in the whole list
      when the head has another key. */
  lemma FirstEntryShift<K, V>(m: seq<(K, V)>, k: K, v: V)
    requires |m| > 0 && m[0].0 != k
    requires exists i :: 0 <= i < |m[1..]| && m[1..][i] == (k, v) && KeyAbsent(m[1..][..i], k)
    ensures exists i :: 0 <= i < |m| && m[i] == (k, v) && KeyAbsent(m[..i], k)
  {
    var i :| 0 <= i < |m[1..]| && m[1..][i] == (k, v) && KeyAbsent(m[1..][..i], k);
    assert m[..i + 1] == [m[0]] + m[1..][..i];
    assert m[i + 1] == (k, v);
  }

  /** No entry of `m` has key `k`. */
  predicate KeyAbsent<K(==), V>(m: seq<(K, V)>, k: K) {
    forall j :: 0 <= j < |m| ==> m[j].0 != k
  }

  /** With distinct keys, the entry at position `i` is what `get` finds. */
  lemma GetAt<K, V>(m: seq<(K, V)>, i: int)
    requires DistinctKeys(m) && 0 <= i < |m|
    ensures Get(m, m[i].0) == Some(m[i].1)
  {
    if i > 0 {
      assert m[0].0 != m[i].0;
      GetAt(m[1..], i - 1);
    }
  }

  /** `map.set(k, v)`: on a present key every position is kept and only
      that key's entry is rewritten; on an absent key the entry is appended
      at the end. */
  function Set<K(==), V>(m: seq<(K, V)>, k: K, v: V): (r: seq<(K, V)>)
    ensures |m| <= |r| <= |m| + 1
    ensures k in Keys(m) ==> |r| == |m|
    ensures k !in Keys(m) ==> r == m + [(k, v)]
    ensures forall i :: 0 <= i < |m| && m[i].0 != k ==> r[i] == m[i]
    ensures forall i :: 0 <= i < |m| ==> r[i].0 == m[i].0
  {
    if |m| == 0 then [(k, v)]
    else
      assert [m[0]] + m[1..] == m;
      KeysCons(m[0], m[1..]);
      if m[0].0 == k then [(k, v)] + m[1..]
      else
        var t := Set(m[1..], k, v);
        assert forall i :: 0 < i < |m| ==> m[i] == m[1..][i - 1];
        [m[0]] + t
  }

  /** After `set(k, v)`, `get(k)` is `v` and every other key reads as before. */
  lemma {:induction false} SetGet<K, V>(m: seq<(K, V)>, k: K, v: V, j: K)
    ensures Get(Set(m, k, v), j) == if j == k then Some(v) else Get(m, j)
  {
    if |m| > 0 && m[0].0 != k {
      SetGet(m[1..], k, v, j);
      assert Set(m, k, v)[1..] == Set(m[1..], k, v);
    } else if |m| > 0 {
      assert Set(m, k, v)[1..] == m[1..];
    }
  }

  /** `set` adds its key to the key set and nothing else. */
  lemma {:induction false} SetKeys<K, V>(m: seq<(K, V)>, k: K, v: V)
    ensures Keys(Set(m, k, v)) == Keys(m) + {k}
  {
    if |m| > 0 {
      assert [m[0]] + m[1..] == m;
      KeysCons(m[0], m[1..]);
      assert Keys(m) == {m[0].0} + Keys(m[1..]);
      if m[0].0 == k {
        assert Set(m, k, v) == [(k, v)] + m[1..];
        KeysCons((k, v), m[1..]);
      } else {
        assert Set(m, k, v) == [m[0]] + Set(m[1..], k, v);
        SetKeys(m[1..], k, v);
        KeysCons(m[0], Set(m[1..], k, v));
      }
    } else {
      assert Set(m, k, v)[0] == (k, v);
    }
  }

  /** `set` keeps keys distinct. */
  lemma SetDistinct<K, V>(m: seq<(K, V)>, k: K, v: V)
    requires DistinctKeys(m)
    ensures DistinctKeys(Set(m, k, v))
  {
    if |m| > 0 && m[0].0 != k {
      assert DistinctKeys(m[1..]);
      SetDistinct(m[1..], k, v);
      SetKeys(m[1..], k, v);
      assert [m[0]] + m[1..] == m;
      KeysCons(m[0], m[1..]);
      var r := Set(m, k, v);
      assert r[1..] == Set(m[1..], k, v);
      forall j | 0 < j < |r| ensures r[0].0 != r[j].0 {
        assert r[j].0 in Keys(Set(m[1..], k, v));
        assert r[0].0 !in Keys(m[1..]);
      }
    } else if |m| > 0 {
      var r := Set(m, k, v);
      assert forall i :: 0 < i < |r| ==> r[i] == m[i];
    }
  }

  lemma KeysCons<K, V>(e: (K, V), m: seq<(K, V)>)
    ensures Keys([e] + m) == {e.0} + Keys(m)
  {
    var r := [e] + m;
    assert r[0] == e;
    forall x | x in Keys(r) ensures x in {e.0} + Keys(m) {
      var i :| 0 <= i < |r| && r[i].0 == x;
      if i > 0 { assert r[i] == m[i - 1]; }
    }
    forall x | x in Keys(m) ensures x in Keys(r) {
      var i :| 0 <= i < |m| && m[i].0 == x;
      assert r[i + 1] == m[i];
    }
  }

  /** `Array.from(map.values())`. */
  function Values<K, V>(m: seq<(K, V)>): (r: seq<V>)
    ensures |r| == |m| && forall i :: 0 <= i < |m| ==> r[i] == m[i].1
  {
    seq(|m|, i requires 0 <= i < |m| => m[i].1)
  }
}
