/**
 Python dicts as insertion-ordered association lists: `m[k] = v` replaces the
 value of an existing key in place and appends a new key at the end, and
 `d.update(other)` is that assignment for every entry of `other` in order.
 */
module OrderedMap {
  import opened Values

  type OMap<K, V> = seq<(K, V)>

  function Keys<K, V>(m: OMap<K, V>): (ks: seq<K>)
    ensures |ks| == |m|
    ensures forall i :: 0 <= i < |m| ==> ks[i] == m[i].0
  {
    seq(|m|, i requires 0 <= i < |m| => m[i].0)
  }

  predicate Distinct<K(==)>(ks: seq<K>)
  {
    forall i, j :: 0 <= i < j < |ks| ==> ks[i] != ks[j]
  }

  /** A dict never holds a key twice. */
  predicate Valid<K(==), V>(m: OMap<K, V>)
  {
    Distinct(Keys(m))
  }

  /** `m.get(k)`: the value stored under the first occurrence of `k`. */
  function Get<K(==), V>(m: OMap<K, V>, k: K): (r: Option<V>)
    ensures r.None? <==> k !in Keys(m)
  {
    if m == [] then None
    else if m[0].0 == k then Some(m[0].1)
    else
      assert Keys(m) == [m[0].0] + Keys(m[1..]);
      Get(m[1..], k)
  }

  /** The value of the last occurrence of `k` (the one a dict literal keeps). */
  function GetLast<K(==), V>(m: OMap<K, V>, k: K): Option<V>
  {
    if m == [] then None
    else if m[|m| - 1].0 == k then Some(m[|m| - 1].1)
    else GetLast(m[..|m| - 1], k)
  }

  /** The entry at position `i` is the one `Get` finds when no earlier entry has its key. */
  lemma {:induction false} GetFirst<K, V>(m: OMap<K, V>, i: nat)
    requires i < |m| && forall j :: 0 <= j < i ==> m[j].0 != m[i].0
    ensures Get(m, m[i].0) == Some(m[i].1)
    decreases i
  {
    if i > 0 {
      GetFirst(m[1..], i - 1);
    }
  }

  /** What `Get` finds is stored at some position under that key. */
  lemma {:induction false} GetFound<K, V>(m: OMap<K, V>, k: K)
    requires Get(m, k).Some?
    ensures exists i :: 0 <= i < |m| && m[i] == (k, Get(m, k).value)
    decreases |m|
  {
    if m[0].0 != k {
      GetFound(m[1..], k);
      var i :| 0 <= i < |m[1..]| && m[1..][i] == (k, Get(m, k).value);
      assert m[i + 1] == m[1..][i];
    }
  }

  /** `m[k] = v`. */
  function Put<K(==), V>(m: OMap<K, V>, k: K, v: V): (r: OMap<K, V>)
    ensures Keys(r) == if k in Keys(m) then Keys(m) else Keys(m) + [k]
    ensures Get(r, k) == Some(v)
    decreases |m|
  {
    if m == [] then [(k, v)]
    else
      KeysCons(m[0], m[1..]);
      assert m == [m[0]] + m[1..];
      if m[0].0 == k then
        KeysCons((k, v), m[1..]);
        [(k, v)] + m[1..]
      else
        var rest := Put(m[1..], k, v);
        KeysCons(m[0], rest);
        [m[0]] + rest
  }

  lemma KeysCons<K, V>(x: (K, V), m: OMap<K, V>)
    ensures Keys([x] + m) == [x.0] + Keys(m)
  {
    assert Keys([x] + m) == [x.0] + Keys(m);
  }

  /** `m[k] = v` leaves every other key as it was. */
  lemma {:induction false} PutGetOther<K, V>(m: OMap<K, V>, k: K, v: V, k': K)
    requires k' != k
    ensures Get(Put(m, k, v), k') == Get(m, k')
    decreases |m|
  {
    if m != [] && m[0].0 != k {
      PutGetOther(m[1..], k, v, k');
    }
  }

  /** Setting a new key appends the entry at the end. */
  lemma {:induction false} PutFresh<K, V>(m: OMap<K, V>, k: K, v: V)
    requires k !in Keys(m)
    ensures Put(m, k, v) == m + [(k, v)]
    decreases |m|
  {
    if m != [] {
      assert Keys(m) == [m[0].0] + Keys(m[1..]);
      PutFresh(m[1..], k, v);
      assert [m[0]] + (m[1..] + [(k, v)]) == m + [(k, v)];
    }
  }

  /** `m[k] = v` keeps a dict free of duplicate keys. */
  lemma PutValid<K, V>(m: OMap<K, V>, k: K, v: V)
    requires Valid(m)
    ensures Valid(Put(m, k, v))
  {
    if k !in Keys(m) {
      DistinctSnoc(Keys(m), k);
    }
  }

  lemma DistinctSnoc<K>(ks: seq<K>, k: K)
    requires Distinct(ks) && k !in ks
    ensures Distinct(ks + [k])
  {
    var ks' := ks + [k];
    forall i, j | 0 <= i < j < |ks'|
      ensures ks'[i] != ks'[j]
    {
      if j < |ks| {
        assert ks'[i] == ks[i] && ks'[j] == ks[j];
      } else {
        assert ks'[i] == ks[i];
      }
    }
  }

  /** `m.update(other)`. */
  function Update<K(==), V>(m: OMap<K, V>, other: OMap<K, V>): OMap<K, V>
  {
    if other == [] then m
    else
      var last := other[|other| - 1];
      Put(Update(m, other[..|other| - 1]), last.0, last.1)
  }

  /** Appends the elements of `ys` not yet present, in order of first appearance. */
  function AppendNew<K(==)>(d: seq<K>, ys: seq<K>): seq<K>
  {
    if ys == [] then d
    else
      var e := AppendNew(d, ys[..|ys| - 1]);
      if ys[|ys| - 1] in e then e else e + [ys[|ys| - 1]]
  }

  /** The elements of `xs` in order of first appearance. */
  function Dedup<K(==)>(xs: seq<K>): seq<K>
  {
    AppendNew([], xs)
  }

  lemma {:induction false} AppendNewMembers<K>(d: seq<K>, ys: seq<K>)
    ensures forall x :: x in AppendNew(d, ys) <==> x in d || x in ys
    decreases |ys|
  {
    if ys != [] {
      AppendNewMembers(d, ys[..|ys| - 1]);
      assert ys == ys[..|ys| - 1] + [ys[|ys| - 1]];
    }
  }

  lemma {:induction false} AppendNewDistinct<K>(d: seq<K>, ys: seq<K>)
    requires Distinct(d)
    ensures Distinct(AppendNew(d, ys))
    decreases |ys|
  {
    if ys != [] {
      AppendNewDistinct(d, ys[..|ys| - 1]);
    }
  }

  lemma {:induction false} AppendNewConcat<K>(xs: seq<K>, ys: seq<K>)
    ensures Dedup(xs + ys) == AppendNew(Dedup(xs), ys)
    decreases |ys|
  {
    if ys == [] {
      assert xs + ys == xs;
    } else {
      var ys' := ys[..|ys| - 1];
      AppendNewConcat(xs, ys');
      assert (xs + ys)[..|xs + ys| - 1] == xs + ys';
    }
  }

  /** The keys of `m.update(other)`: those of `m`, then the new keys of `other`. */
  lemma {:induction false} UpdateKeys<K, V>(m: OMap<K, V>, other: OMap<K, V>)
    ensures Keys(Update(m, other)) == AppendNew(Keys(m), Keys(other))
    decreases |other|
  {
    if other != [] {
      var init := other[..|other| - 1];
      UpdateKeys(m, init);
      assert Keys(other)[..|other| - 1] == Keys(init);
    }
  }

  /** A key read back from `m.update(other)` comes from `other` when `other` has it. */
  lemma {:induction false} UpdateGet<K, V>(m: OMap<K, V>, other: OMap<K, V>, k: K)
    ensures Get(Update(m, other), k) == if k in Keys(other) then GetLast(other, k) else Get(m, k)
    decreases |other|
  {
    if other != [] {
      var init := other[..|other| - 1];
      var last := other[|other| - 1];
      var prev := Update(m, init);
      assert Update(m, other) == Put(prev, last.0, last.1);
      if last.0 == k {
        assert k in Keys(other) by { assert Keys(other)[|other| - 1] == k; }
      } else {
        UpdateGet(m, init, k);
        PutGetOther(prev, last.0, last.1, k);
        KeysSnoc(other);
      }
    }
  }

  lemma KeysSnoc<K, V>(m: OMap<K, V>)
    requires m != []
    ensures Keys(m) == Keys(m[..|m| - 1]) + [m[|m| - 1].0]
  {
    assert Keys(m) == Keys(m[..|m| - 1]) + [m[|m| - 1].0];
  }

  lemma {:induction false} UpdateValid<K, V>(m: OMap<K, V>, other: OMap<K, V>)
    requires Valid(m)
    ensures Valid(Update(m, other))
  {
    UpdateKeys(m, other);
    AppendNewDistinct(Keys(m), Keys(other));
  }

  /** Folding `update` over a list of dicts, starting from `{}`. */
  function MergeAll<K(==), V>(tables: seq<OMap<K, V>>): (r: OMap<K, V>)
    ensures Valid(r)
  {
    if tables == [] then []
    else
      var prev := MergeAll(tables[..|tables| - 1]);
      UpdateValid(prev, tables[|tables| - 1]);
      Update(prev, tables[|tables| - 1])
  }

  /** All keys of all tables, in table order. */
  function FlatKeys<K, V>(tables: seq<OMap<K, V>>): seq<K>
  {
    if tables == [] then [] else FlatKeys(tables[..|tables| - 1]) + Keys(tables[|tables| - 1])
  }

  /** The value the last table defining `k` gives it. */
  function LastDefinition<K(==), V>(tables: seq<OMap<K, V>>, k: K): Option<V>
  {
    if tables == [] then None
    else if k in Keys(tables[|tables| - 1]) then GetLast(tables[|tables| - 1], k)
    else LastDefinition(tables[..|tables| - 1], k)
  }

  /** Merged keys appear in order of first insertion across the tables. */
  lemma {:induction false} MergeAllKeys<K, V>(tables: seq<OMap<K, V>>)
    ensures Keys(MergeAll(tables)) == Dedup(FlatKeys(tables))
    decreases |tables|
  {
    if tables != [] {
      var init := tables[..|tables| - 1];
      var last := tables[|tables| - 1];
      MergeAllKeys(init);
      UpdateKeys(MergeAll(init), last);
      AppendNewConcat(FlatKeys(init), Keys(last));
    }
  }

  /** A later table overrides an earlier one: each key keeps its last definition. */
  lemma {:induction false} MergeAllGet<K, V>(tables: seq<OMap<K, V>>, k: K)
    ensures Get(MergeAll(tables), k) == LastDefinition(tables, k)
    decreases |tables|
  {
    if tables != [] {
      var init := tables[..|tables| - 1];
      MergeAllGet(init, k);
      UpdateGet(MergeAll(init), tables[|tables| - 1], k);
    }
  }

  lemma {:induction false} GetLastValid<K, V>(m: OMap<K, V>, k: K)
    requires Valid(m)
    ensures GetLast(m, k) == Get(m, k)
    decreases |m|
  {
    if m != [] {
      var init := m[..|m| - 1];
      assert Keys(m) == Keys(init) + [m[|m| - 1].0];
      assert Valid(init) by {
        assert Keys(init) == Keys(m)[..|m| - 1];
      }
      GetLastValid(init, k);
      if m[|m| - 1].0 == k {
        GetOfLast(m, k);
      } else {
        GetPrefix(m, k);
      }
    }
  }

  lemma {:induction false} GetOfLast<K, V>(m: OMap<K, V>, k: K)
    requires Valid(m) && m != [] && m[|m| - 1].0 == k
    ensures Get(m, k) == Some(m[|m| - 1].1)
    decreases |m|
  {
    if |m| > 1 {
      assert m[0].0 != k by { assert Keys(m)[0] != Keys(m)[|m| - 1]; }
      assert Valid(m[1..]) by { assert Keys(m[1..]) == Keys(m)[1..]; }
      GetOfLast(m[1..], k);
    }
  }

  lemma {:induction false} GetPrefix<K, V>(m: OMap<K, V>, k: K)
    requires m != [] && m[|m| - 1].0 != k
    ensures Get(m, k) == Get(m[..|m| - 1], k)
    decreases |m|
  {
    if |m| > 1 && m[0].0 != k {
      GetPrefix(m[1..], k);
      assert m[1..][..|m| - 2] == m[..|m| - 1][1..];
    }
  }
}
