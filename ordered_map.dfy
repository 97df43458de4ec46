/** Insertion-ordered string-keyed maps: a JS `Map`, and the property order of
    a plain object built by `Object.fromEntries`. An entry list is kept with
    each key at most once; `Set` overwrites in place and appends new keys. */
module OrderedMap {
  import opened Wrappers

  type Entries<V> = seq<(string, V)>

  predicate DistinctKeys<V>(m: Entries<V>) {
    forall i, j :: 0 <= i < j < |m| ==> m[i].0 != m[j].0
  }

  predicate HasKey<V>(m: Entries<V>, key: string) {
    exists i :: 0 <= i < |m| && m[i].0 == key
  }

  /** `map.get(key)`: the value stored under the first entry with that key. */
  function Get<V>(m: Entries<V>, key: string): (r: Option<V>)
    ensures r.Some? <==> HasKey(m, key)
  {
    if m == [] then None
    else if m[0].0 == key then Some(m[0].1)
    else
      var r := Get(m[1..], key);
      assert forall i :: 1 <= i < |m| ==> m[i] == m[1..][i - 1];
      r
  }

  /** A value found is stored under the key, and with distinct keys it is the
      value of the one entry with that key. */
  lemma {:induction false} GetFound<V>(m: Entries<V>, key: string)
    ensures Get(m, key).Some? ==> exists i :: 0 <= i < |m| && m[i] == (key, Get(m, key).value)
    ensures DistinctKeys(m) ==> forall i :: 0 <= i < |m| && m[i].0 == key ==> Get(m, key) == Some(m[i].1)
  {
    if m != [] {
      GetFound(m[1..], key);
      assert forall i :: 1 <= i < |m| ==> m[i] == m[1..][i - 1];
      if DistinctKeys(m) {
        assert DistinctKeys(m[1..]) by {
          assert forall i, j :: 0 <= i < j < |m[1..]| ==> m[1..][i] == m[i + 1] && m[1..][j] == m[j + 1];
        }
      }
      if m[0].0 != key && Get(m, key).Some? {
        var i :| 0 <= i < |m[1..]| && m[1..][i] == (key, Get(m, key).value);
        assert m[i + 1] == (key, Get(m, key).value);
      }
    }
  }

  /** `map.set(key, v)` / `obj[key] = v`: an existing key keeps its place and
      takes the new value, a new key goes last. */
  function Set<V>(m: Entries<V>, key: string, v: V): (r: Entries<V>)
    ensures HasKey(m, key) ==> |r| == |m| && forall i :: 0 <= i < |m| ==> r[i].0 == m[i].0
    ensures !HasKey(m, key) ==> r == m + [(key, v)]
    ensures Get(r, key) == Some(v)
    ensures forall k :: k != key ==> Get(r, k) == Get(m, k)
    ensures DistinctKeys(m) ==> DistinctKeys(r)
  {
    if m == [] then [(key, v)]
    else if m[0].0 == key then
      SetFirst(m, key, v);
      [(key, v)] + m[1..]
    else
      var rest := Set(m[1..], key, v);
      SetLaterKeys(m, key, v, rest);
      SetLaterGet(m, key, v, rest);
      SetLaterDistinct(m, key, v, rest);
      [m[0]] + rest
  }

  /** `Set` when the first entry has the key. */
  lemma SetFirst<V>(m: Entries<V>, key: string, v: V)
    requires m != [] && m[0].0 == key
    ensures var r := [(key, v)] + m[1..];
      HasKey(m, key) && |r| == |m| && (forall i :: 0 <= i < |m| ==> r[i].0 == m[i].0) &&
      Get(r, key) == Some(v) && (forall k :: k != key ==> Get(r, k) == Get(m, k)) &&
      (DistinctKeys(m) ==> DistinctKeys(r))
  {
    assert m == [m[0]] + m[1..];
    ConsHasKey(m[0], m[1..]);
    ConsGet(m[0], m[1..]);
    ConsGet((key, v), m[1..]);
    ConsDistinct(m[0], m[1..]);
    ConsDistinct((key, v), m[1..]);
  }

  /** `Set` when the first entry has another key, from what it does to the
      rest: the keys, ... */
  lemma SetLaterKeys<V>(m: Entries<V>, key: string, v: V, rest: Entries<V>)
    requires m != [] && m[0].0 != key
    requires HasKey(m[1..], key) ==> |rest| == |m[1..]| && forall i :: 0 <= i < |m[1..]| ==> rest[i].0 == m[1..][i].0
    requires !HasKey(m[1..], key) ==> rest == m[1..] + [(key, v)]
    ensures var r := [m[0]] + rest;
      (HasKey(m, key) ==> |r| == |m| && forall i :: 0 <= i < |m| ==> r[i].0 == m[i].0) &&
      (!HasKey(m, key) ==> r == m + [(key, v)])
  {
    var h, t := m[0], m[1..];
    assert m == [h] + t;
    ConsHasKey(h, t);
    var r := [h] + rest;
    if HasKey(m, key) {
      forall i | 0 <= i < |m|
        ensures r[i].0 == m[i].0
      {
        if i > 0 {
          assert r[i] == rest[i - 1] && m[i] == t[i - 1];
        }
      }
    } else {
      assert r == [h] + (t + [(key, v)]);
    }
  }

  /** ... the values, ... */
  lemma SetLaterGet<V>(m: Entries<V>, key: string, v: V, rest: Entries<V>)
    requires m != [] && m[0].0 != key
    requires Get(rest, key) == Some(v)
    requires forall k :: k != key ==> Get(rest, k) == Get(m[1..], k)
    ensures var r := [m[0]] + rest;
      Get(r, key) == Some(v) && forall k :: k != key ==> Get(r, k) == Get(m, k)
  {
    var h, t := m[0], m[1..];
    assert m == [h] + t;
    ConsGet(h, t);
    ConsGet(h, rest);
  }

  /** ... and the keys staying distinct. */
  lemma SetLaterDistinct<V>(m: Entries<V>, key: string, v: V, rest: Entries<V>)
    requires m != [] && m[0].0 != key
    requires Get(rest, m[0].0) == Get(m[1..], m[0].0)
    requires DistinctKeys(m[1..]) ==> DistinctKeys(rest)
    ensures DistinctKeys(m) ==> DistinctKeys([m[0]] + rest)
  {
    var h, t := m[0], m[1..];
    assert HasKey(rest, h.0) <==> HasKey(t, h.0);
    assert m == [h] + t;
    ConsDistinct(h, t);
    ConsDistinct(h, rest);
  }

  lemma ConsGet<V>(h: (string, V), t: Entries<V>)
    ensures forall k :: Get([h] + t, k) == if h.0 == k then Some(h.1) else Get(t, k)
  {
    assert ([h] + t)[1..] == t;
  }

  lemma ConsHasKey<V>(h: (string, V), t: Entries<V>)
    ensures forall k :: HasKey([h] + t, k) <==> h.0 == k || HasKey(t, k)
  {
    var m := [h] + t;
    forall k
      ensures HasKey(m, k) <==> h.0 == k || HasKey(t, k)
    {
      if h.0 == k {
        assert m[0].0 == k;
      }
      if HasKey(t, k) {
        var i :| 0 <= i < |t| && t[i].0 == k;
        assert m[i + 1].0 == k;
      }
      if HasKey(m, k) && h.0 != k {
        var i :| 0 <= i < |m| && m[i].0 == k;
        assert t[i - 1].0 == k;
      }
    }
  }

  lemma ConsDistinct<V>(h: (string, V), t: Entries<V>)
    ensures DistinctKeys([h] + t) <==> DistinctKeys(t) && !HasKey(t, h.0)
  {
    var m := [h] + t;
    assert forall i :: 1 <= i < |m| ==> m[i] == t[i - 1];
    if DistinctKeys(t) && !HasKey(t, h.0) {
      forall i, j | 0 <= i < j < |m|
        ensures m[i].0 != m[j].0
      {
        if i > 0 {
          assert m[i] == t[i - 1] && m[j] == t[j - 1];
        } else {
          assert m[j] == t[j - 1];
        }
      }
    }
    if DistinctKeys(m) {
      forall i, j | 0 <= i < j < |t|
        ensures t[i].0 != t[j].0
      {
        assert m[i + 1] == t[i] && m[j + 1] == t[j];
      }
      forall i | 0 <= i < |t|
        ensures t[i].0 != h.0
      {
        assert m[i + 1] == t[i] && m[0] == h;
        assert m[0].0 != m[i + 1].0;
      }
    }
  }

  /** The value of the last pair with that key, if any. */
  function LastValue<V>(pairs: Entries<V>, key: string): (r: Option<V>)
    ensures r.Some? <==> HasKey(pairs, key)
    ensures r.Some? ==> exists i :: 0 <= i < |pairs| && pairs[i] == (key, r.value) &&
                          forall j :: i < j < |pairs| ==> pairs[j].0 != key
  {
    if pairs == [] then None
    else if pairs[|pairs| - 1].0 == key then Some(pairs[|pairs| - 1].1)
    else LastValue(pairs[..|pairs| - 1], key)
  }

  /** The index of the first pair with that key, or `|pairs|`. */
  function KeyIndex<V>(pairs: Entries<V>, key: string): (r: nat)
    ensures r <= |pairs|
    ensures r < |pairs| ==> pairs[r].0 == key
    ensures forall j :: 0 <= j < r ==> pairs[j].0 != key
  {
    if pairs == [] then 0
    else if pairs[0].0 == key then 0
    else 1 + KeyIndex(pairs[1..], key)
  }

  /** `Object.fromEntries(pairs)`: one entry per key, the LAST value given for
      it, and the keys in the order of their FIRST occurrence. */
  function FromEntries<V>(pairs: Entries<V>): (r: Entries<V>)
    ensures DistinctKeys(r)
    ensures forall key :: Get(r, key) == LastValue(pairs, key)
  {
    if pairs == [] then []
    else
      var prefix := pairs[..|pairs| - 1];
      var last := pairs[|pairs| - 1];
      assert pairs == prefix + [last];
      var m := FromEntries(prefix);
      FromEntriesValueStep(prefix, last, m);
      Set(m, last.0, last.1)
  }

  lemma FromEntriesValueStep<V>(prefix: Entries<V>, last: (string, V), m: Entries<V>)
    requires forall key :: Get(m, key) == LastValue(prefix, key)
    ensures forall key :: Get(Set(m, last.0, last.1), key) == LastValue(prefix + [last], key)
  {
    var p := prefix + [last];
    assert p[..|p| - 1] == prefix;
  }

  /** The keys of `Object.fromEntries(pairs)` come in the order of their first
      occurrence in `pairs`. */
  lemma {:induction false} FromEntriesOrder<V>(pairs: Entries<V>) returns (r: Entries<V>)
    ensures r == FromEntries(pairs)
    ensures forall a, b :: 0 <= a < b < |r| ==> KeyIndex(pairs, r[a].0) < KeyIndex(pairs, r[b].0)
  {
    r := FromEntries(pairs);
    if pairs != [] {
      var prefix := pairs[..|pairs| - 1];
      var m := FromEntriesOrder(prefix);
      FromEntriesOrderStep(pairs, m);
      assert FromEntries(pairs) == Set(m, pairs[|pairs| - 1].0, pairs[|pairs| - 1].1);
    }
  }

  lemma FromEntriesOrderStep<V>(p: Entries<V>, m: Entries<V>)
    requires p != []
    requires forall key :: Get(m, key) == LastValue(p[..|p| - 1], key)
    requires forall a, b :: 0 <= a < b < |m| ==> KeyIndex(p[..|p| - 1], m[a].0) < KeyIndex(p[..|p| - 1], m[b].0)
    ensures var r := Set(m, p[|p| - 1].0, p[|p| - 1].1);
      forall a, b :: 0 <= a < b < |r| ==> KeyIndex(p, r[a].0) < KeyIndex(p, r[b].0)
  {
    var prefix, last := p[..|p| - 1], p[|p| - 1];
    assert p == prefix + [last];
    KeysOfPrefix(prefix, last, m);
    if HasKey(m, last.0) {
      OrderKept(p, m, Set(m, last.0, last.1));
    } else {
      assert !HasKey(prefix, last.0) by {
        assert Get(m, last.0).None?;
      }
      OrderAppended(prefix, last, m);
    }
  }

  /** The keys already in the object come from the pairs before the last,
      where they first occur as they do in all the pairs. */
  lemma KeysOfPrefix<V>(prefix: Entries<V>, last: (string, V), m: Entries<V>)
    requires forall key :: Get(m, key) == LastValue(prefix, key)
    ensures forall a :: 0 <= a < |m| ==>
      HasKey(prefix, m[a].0) && KeyIndex(prefix + [last], m[a].0) == KeyIndex(prefix, m[a].0)
  {
    forall a | 0 <= a < |m|
      ensures HasKey(prefix, m[a].0) && KeyIndex(prefix + [last], m[a].0) == KeyIndex(prefix, m[a].0)
    {
      assert HasKey(m, m[a].0);
      assert Get(m, m[a].0).Some?;
      KeyIndexOfExtension(prefix, last, m[a].0);
    }
  }

  /** Overwriting a key keeps every key in its place. */
  lemma OrderKept<V>(p: Entries<V>, m: Entries<V>, r: Entries<V>)
    requires p != []
    requires |r| == |m| && forall i :: 0 <= i < |m| ==> r[i].0 == m[i].0
    requires forall a :: 0 <= a < |m| ==> KeyIndex(p, m[a].0) == KeyIndex(p[..|p| - 1], m[a].0)
    requires forall a, b :: 0 <= a < b < |m| ==> KeyIndex(p[..|p| - 1], m[a].0) < KeyIndex(p[..|p| - 1], m[b].0)
    ensures forall a, b :: 0 <= a < b < |r| ==> KeyIndex(p, r[a].0) < KeyIndex(p, r[b].0)
  {
  }

  /** A new key goes last, after every key of the earlier pairs. */
  lemma OrderAppended<V>(prefix: Entries<V>, last: (string, V), m: Entries<V>)
    requires !HasKey(prefix, last.0)
    requires forall a :: 0 <= a < |m| ==>
      HasKey(prefix, m[a].0) && KeyIndex(prefix + [last], m[a].0) == KeyIndex(prefix, m[a].0)
    requires forall a, b :: 0 <= a < b < |m| ==> KeyIndex(prefix, m[a].0) < KeyIndex(prefix, m[b].0)
    ensures var p, r := prefix + [last], m + [last];
      forall a, b :: 0 <= a < b < |r| ==> KeyIndex(p, r[a].0) < KeyIndex(p, r[b].0)
  {
    var p, r := prefix + [last], m + [last];
    assert KeyIndex(p, last.0) == |prefix| by {
      assert p[|prefix|].0 == last.0;
      assert forall j :: 0 <= j < |prefix| ==> p[j] == prefix[j];
    }
    forall a | 0 <= a < |m|
      ensures KeyIndex(prefix, m[a].0) < |prefix|
    {
      KeyIndexFound(prefix, m[a].0);
    }
    assert forall a :: 0 <= a < |m| ==> r[a] == m[a];
  }

  lemma KeyIndexFound<V>(pairs: Entries<V>, key: string)
    requires HasKey(pairs, key)
    ensures KeyIndex(pairs, key) < |pairs|
  {
    var i :| 0 <= i < |pairs| && pairs[i].0 == key;
    assert !(KeyIndex(pairs, key) > i);
  }

  lemma KeyIndexOfExtension<V>(prefix: Entries<V>, last: (string, V), key: string)
    requires HasKey(prefix, key)
    ensures KeyIndex(prefix + [last], key) == KeyIndex(prefix, key)
  {
    var p := prefix + [last];
    var i := KeyIndex(prefix, key);
    assert i < |prefix|;
    assert forall j :: 0 <= j < |prefix| ==> p[j] == prefix[j];
    var k := KeyIndex(p, key);
    assert !(k < i) && !(i < k);
  }
}
