/** Python `dict`s: a finite map together with the order its keys were first inserted in. */
module OrderedMaps {

  datatype OMap<K(==), V> = OMap(keys: seq<K>, vals: map<K, V>) {

    /** Every key listed once, and exactly the keys of the map listed. */
    ghost predicate Valid() {
      && (forall i, j | 0 <= i < j < |keys| :: keys[i] != keys[j])
      && (forall k | k in vals :: k in keys)
      && (forall i | 0 <= i < |keys| :: keys[i] in vals)
    }

    /** `d[k] = v`: a new key goes to the end of the order, an existing one keeps its place. */
    function Put(k: K, v: V): (r: OMap<K, V>)
      requires Valid()
      ensures r.Valid()
      ensures r.vals == vals[k := v]
      ensures k in vals ==> r.keys == keys
      ensures k !in vals ==> r.keys == keys + [k]
    {
      if k in vals then OMap(keys, vals[k := v]) else OMap(keys + [k], vals[k := v])
    }

    /** `d.values()`, in key order. */
    function Values(): (r: seq<V>)
      requires Valid()
      ensures |r| == |keys|
      ensures forall i | 0 <= i < |keys| :: r[i] == vals[keys[i]]
    {
      seq(|keys|, i requires 0 <= i < |keys| => vals[keys[i]])
    }
  }

  /** `{}`. */
  function Empty<K(==), V>(): (r: OMap<K, V>)
    ensures r.Valid() && r.keys == [] && r.vals == map[]
  {
    OMap([], map[])
  }

  /** No element occurs twice. */
  predicate NoDuplicates<T(==)>(s: seq<T>) {
    forall a, b | 0 <= a < b < |s| :: s[a] != s[b]
  }

  /**
   * The key order of a dict that listed `seen` and is then assigned the
   * keys of `s` in turn: a key already present keeps its place, a new one
   * goes to the end.
   */
  function KeyOrder<K(==)>(seen: seq<K>, s: seq<K>): seq<K> {
    if s == [] then seen
    else
      var r := KeyOrder(seen, s[..|s| - 1]);
      if s[|s| - 1] in r then r else r + [s[|s| - 1]]
  }

  /** The keys listed are those listed before and those assigned. */
  lemma {:induction false} KeyOrderMembers<K>(seen: seq<K>, s: seq<K>)
    ensures forall x :: x in KeyOrder(seen, s) <==> x in seen || x in s
  {
    if s != [] {
      var init := s[..|s| - 1];
      KeyOrderMembers(seen, init);
      assert s == init + [s[|s| - 1]];
    }
  }

  /** Starting from distinct keys, no key is ever listed twice. */
  lemma {:induction false} KeyOrderDistinct<K>(seen: seq<K>, s: seq<K>)
    requires NoDuplicates(seen)
    ensures NoDuplicates(KeyOrder(seen, s))
  {
    if s != [] {
      KeyOrderDistinct(seen, s[..|s| - 1]);
    }
  }

  /** The order after some of the assignments is a prefix of the order after all of them. */
  lemma {:induction false} KeyOrderPrefix<K>(seen: seq<K>, s: seq<K>, k: nat)
    requires k <= |s|
    ensures |KeyOrder(seen, s[..k])| <= |KeyOrder(seen, s)|
    ensures KeyOrder(seen, s)[..|KeyOrder(seen, s[..k])|] == KeyOrder(seen, s[..k])
    decreases |s| - k
  {
    if k == |s| {
      assert s[..k] == s;
    } else {
      var init := s[..|s| - 1];
      assert init[..k] == s[..k];
      KeyOrderPrefix(seen, init, k);
      var p := KeyOrder(seen, s[..k]);
      var q := KeyOrder(seen, init);
      assert KeyOrder(seen, s)[..|q|] == q;
      assert q[..|p|] == p;
      assert KeyOrder(seen, s)[..|p|] == q[..|p|];
    }
  }

  /**
   * Keys are listed in the order of their first assignment: when `s[j]` is
   * a key not listed before and not assigned before position `j`, every key
   * assigned before position `j` is listed ahead of it.
   */
  lemma KeyOrderFollowsFirstAssignment<K>(seen: seq<K>, s: seq<K>, i: nat, j: nat)
    requires NoDuplicates(seen) && i < j < |s|
    requires s[j] !in seen && s[j] !in s[..j]
    ensures exists a, b | 0 <= a < b < |KeyOrder(seen, s)| :: KeyOrder(seen, s)[a] == s[i] && KeyOrder(seen, s)[b] == s[j]
  {
    var r := KeyOrder(seen, s);
    var p := KeyOrder(seen, s[..j]);
    KeyOrderMembers(seen, s[..j]);
    KeyOrderMembers(seen, s);
    KeyOrderPrefix(seen, s, j);
    assert s[i] == s[..j][i];
    assert s[i] in s[..j];
    assert s[i] in p;
    var a :| 0 <= a < |p| && p[a] == s[i];
    assert r[a] == p[a];
    assert s[j] in s;
    assert s[j] in r;
    var b :| 0 <= b < |r| && r[b] == s[j];
    if b < |p| {
      assert false;
    }
  }

  /** Assigning the keys of `a` and then those of `b` is assigning those of `a + b`. */
  lemma {:induction false} KeyOrderAppend<K>(seen: seq<K>, a: seq<K>, b: seq<K>)
    ensures KeyOrder(seen, a + b) == KeyOrder(KeyOrder(seen, a), b)
    decreases |b|
  {
    if b == [] {
      assert a + b == a;
    } else {
      assert (a + b)[..|a + b| - 1] == a + b[..|b| - 1];
      assert (a + b)[|a + b| - 1] == b[|b| - 1];
      KeyOrderAppend(seen, a, b[..|b| - 1]);
    }
  }

  /** One assignment `d[k] = v` moves the key order on by `k`. */
  lemma PutKeyOrder<K, V>(m: OMap<K, V>, k: K, v: V)
    requires m.Valid()
    ensures m.Put(k, v).keys == KeyOrder(m.keys, [k])
  {
    assert [k][..0] == [];
  }
}
