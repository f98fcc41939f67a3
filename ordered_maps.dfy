/**
 * Python's `dict` as an association list: the entries in insertion order.
 * Assigning to a key that is already present replaces its value where it
 * stands; assigning to a new key appends it. `dict.update` assigns the
 * entries of its argument one after the other.
 */
module OrderedMaps {
  import opened Wrappers

  type OrderedMap<K, V> = seq<(K, V)>

  function Keys<K, V>(m: OrderedMap<K, V>): (ks: seq<K>)
    ensures |ks| == |m|
  {
    seq(|m|, i requires 0 <= i < |m| => m[i].0)
  }

  predicate Distinct<T(==)>(xs: seq<T>) {
    forall i, j :: 0 <= i < j < |xs| ==> xs[i] != xs[j]
  }

  /** What every real dict satisfies: no key twice. */
  predicate Valid<K(==), V>(m: OrderedMap<K, V>) {
    Distinct(Keys(m))
  }

  /** The keys of a map with one more entry; callers use it to rewrite `Keys` of a snoc. */
  lemma KeysSnoc<K, V>(m: OrderedMap<K, V>, e: (K, V))
    ensures Keys(m + [e]) == Keys(m) + [e.0]
  {
  }

  lemma KeysPrefix<K, V>(m: OrderedMap<K, V>)
    requires m != []
    ensures Keys(m) == Keys(m[..|m| - 1]) + [m[|m| - 1].0]
  {
    assert m == m[..|m| - 1] + [m[|m| - 1]];
    KeysSnoc(m[..|m| - 1], m[|m| - 1]);
  }

  /** `m.get(k)`: the value of the last entry with key `k` (for a valid map, the only one). */
  function Get<K(==), V>(m: OrderedMap<K, V>, k: K): (r: Option<V>)
    ensures r.Some? <==> k in Keys(m)
    decreases |m|
  {
    if m == [] then None
    else
      KeysPrefix(m);
      if m[|m| - 1].0 == k then Some(m[|m| - 1].1)
      else Get(m[..|m| - 1], k)
  }

  /** `m[k] = v`. */
  function Put<K(==,!new), V>(m: OrderedMap<K, V>, k: K, v: V): (r: OrderedMap<K, V>)
    ensures Get(r, k) == Some(v)
    ensures forall j :: j != k ==> Get(r, j) == Get(m, j)
    ensures Keys(r) == if k in Keys(m) then Keys(m) else Keys(m) + [k]
    ensures k !in Keys(m) ==> r == m + [(k, v)]
    decreases |m|
  {
    if k !in Keys(m) then
      KeysSnoc(m, (k, v));
      assert (m + [(k, v)])[..|m|] == m;
      m + [(k, v)]
    else
      KeysPrefix(m);
      var init, last := m[..|m| - 1], m[|m| - 1];
      if last.0 == k then
        KeysSnoc(init, (k, v));
        assert (init + [(k, v)])[..|init|] == init;
        init + [(k, v)]
      else
        var r' := Put(init, k, v);
        KeysSnoc(r', last);
        assert (r' + [last])[..|r'|] == r';
        r' + [last]
  }

  /** Assigns the entries of `es` to `m` one after the other: `m.update(es)`. */
  function PutAll<K(==,!new), V>(m: OrderedMap<K, V>, es: seq<(K, V)>): OrderedMap<K, V>
    decreases |es|
  {
    if es == [] then m
    else Put(PutAll(m, es[..|es| - 1]), es[|es| - 1].0, es[|es| - 1].1)
  }

  /** The elements of `xs`, each kept at its first occurrence only. */
  function Dedup<T(==,!new)>(xs: seq<T>): (ds: seq<T>)
    ensures Distinct(ds)
    ensures forall x :: x in ds <==> x in xs
    decreases |xs|
  {
    if xs == [] then []
    else
      var d := Dedup(xs[..|xs| - 1]);
      assert xs == xs[..|xs| - 1] + [xs[|xs| - 1]];
      if xs[|xs| - 1] in d then d else d + [xs[|xs| - 1]]
  }

  lemma {:induction false} DedupOfDistinct<T(!new)>(xs: seq<T>)
    requires Distinct(xs)
    ensures Dedup(xs) == xs
    decreases |xs|
  {
    if xs != [] {
      var init := xs[..|xs| - 1];
      assert Distinct(init);
      DedupOfDistinct(init);
      assert xs[|xs| - 1] !in init;
      assert xs == init + [xs[|xs| - 1]];
    }
  }

  /** One unfolding of `Dedup` at the end of the sequence. */
  lemma DedupSnoc<T(!new)>(zs: seq<T>, y: T)
    ensures Dedup(zs + [y]) == if y in Dedup(zs) then Dedup(zs) else Dedup(zs) + [y]
  {
    assert (zs + [y])[..|zs|] == zs;
  }

  lemma {:induction false} DedupAppend<T(!new)>(xs: seq<T>, ys: seq<T>)
    ensures Dedup(Dedup(xs) + ys) == Dedup(xs + ys)
    decreases |ys|
  {
    if ys == [] {
      assert xs + ys == xs;
      assert Dedup(xs) + ys == Dedup(xs);
      DedupOfDistinct(Dedup(xs));
    } else {
      var init, y := ys[..|ys| - 1], ys[|ys| - 1];
      assert ys == init + [y];
      DedupAppend(xs, init);
      assert Dedup(xs) + ys == (Dedup(xs) + init) + [y];
      assert xs + ys == (xs + init) + [y];
      DedupSnoc(Dedup(xs) + init, y);
      DedupSnoc(xs + init, y);
    }
  }


  /** After `m.update(es)`, a key takes its last value in `es`, or keeps its value in `m`. */
  lemma {:induction false} PutAllGet<K(!new), V>(m: OrderedMap<K, V>, es: seq<(K, V)>, k: K)
    ensures Get(PutAll(m, es), k) == if k in Keys(es) then Get(es, k) else Get(m, k)
    decreases |es|
  {
    if es != [] {
      var init, e := es[..|es| - 1], es[|es| - 1];
      PutAllGet(m, init, k);
      KeysPrefix(es);
    }
  }

  /** After `m.update(es)`, the keys of `m` keep their places and new keys follow in first-seen order. */
  lemma {:induction false} PutAllKeys<K(!new), V>(m: OrderedMap<K, V>, es: seq<(K, V)>)
    requires Valid(m)
    ensures Keys(PutAll(m, es)) == Dedup(Keys(m) + Keys(es))
    ensures Valid(PutAll(m, es))
    decreases |es|
  {
    if es == [] {
      assert Keys(m) + Keys(es) == Keys(m);
      DedupOfDistinct(Keys(m));
    } else {
      var init, e := es[..|es| - 1], es[|es| - 1];
      PutAllKeys(m, init);
      KeysPrefix(es);
      var both := Keys(m) + Keys(es);
      assert both == (Keys(m) + Keys(init)) + [e.0];
      PutKeysDedup(PutAll(m, init), Keys(m) + Keys(init), e.0, e.1);
    }
  }

  lemma PutKeysDedup<K(!new), V>(p: OrderedMap<K, V>, xs: seq<K>, k: K, v: V)
    requires Keys(p) == Dedup(xs)
    ensures Keys(Put(p, k, v)) == Dedup(xs + [k])
  {
    assert (xs + [k])[..|xs|] == xs;
  }

  /** Building a dict from entries with distinct keys gives back those entries. */
  lemma {:induction false} PutAllOfDistinct<K(!new), V>(es: seq<(K, V)>)
    requires Valid(es)
    ensures PutAll([], es) == es
    decreases |es|
  {
    if es != [] {
      var init, e := es[..|es| - 1], es[|es| - 1];
      ValidPrefix(es);
      PutAllOfDistinct(init);
      assert PutAll([], es) == Put(init, e.0, e.1);
      assert es == init + [e];
    }
  }


  /** In a valid map, looking up an entry's key gives that entry's value. */
  lemma {:induction false} GetEntry<K, V>(m: OrderedMap<K, V>, i: nat)
    requires Valid(m) && i < |m|
    ensures Get(m, m[i].0) == Some(m[i].1)
  {
    forall j | i < j < |m|
      ensures m[j].0 != m[i].0
    {
      assert Keys(m)[i] != Keys(m)[j];
    }
    GetLastMatch(m, i);
  }

  /** The last entry with key `k` decides `Get(es, k)`, duplicates or not. */
  lemma {:induction false} GetLastMatch<K, V>(es: seq<(K, V)>, i: nat)
    requires i < |es|
    requires forall j :: i < j < |es| ==> es[j].0 != es[i].0
    ensures Get(es, es[i].0) == Some(es[i].1)
    decreases |es|
  {
    if i < |es| - 1 {
      var init := es[..|es| - 1];
      GetLastMatch(init, i);
    }
  }

  /** Dropping the last entry of a valid map leaves a valid map without that entry's key. */
  lemma ValidPrefix<K, V>(m: OrderedMap<K, V>)
    requires Valid(m) && m != []
    ensures Valid(m[..|m| - 1])
    ensures m[|m| - 1].0 !in Keys(m[..|m| - 1])
  {
    var init := m[..|m| - 1];
    KeysPrefix(m);
    var ks := Keys(m);
    assert Keys(init) == ks[..|m| - 1];
    assert ks[|m| - 1] == m[|m| - 1].0;
    forall i | 0 <= i < |init|
      ensures Keys(init)[i] != m[|m| - 1].0
    {
      assert Keys(init)[i] == ks[i];
      assert ks[i] != ks[|m| - 1];
    }
  }

  /** A value `Get` returns is the value of an entry with that key. */
  lemma {:induction false} GetFromEntry<K, V>(m: OrderedMap<K, V>, k: K)
    requires Get(m, k).Some?
    ensures exists i :: 0 <= i < |m| && m[i] == (k, Get(m, k).value)
    decreases |m|
  {
    if m[|m| - 1].0 != k {
      var init := m[..|m| - 1];
      GetFromEntry(init, k);
      var i :| 0 <= i < |init| && init[i] == (k, Get(init, k).value);
      assert m[i] == init[i];
    }
  }
}
