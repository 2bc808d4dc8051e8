/**
 * A JavaScript object used as a dictionary (`{ [key: string]: any }`), as a
 * list of entries in insertion order. Assigning `obj[k] = v` replaces the
 * value in place when `k` is already a key and appends a new entry otherwise,
 * so the key order is that of first insertion.
 *
 * That is JavaScript's own order for every key except two kinds, which this
 * model does not distinguish: array-index keys (`"0"`, `"17"`), which an
 * object enumerates first and in ascending numeric order, and `__proto__`,
 * whose assignment replaces the prototype and creates no own key.
 */
module JsObjects {
  import opened Options

  datatype Entry<V> = Entry(key: string, value: V)

  function Keys<V>(fs: seq<Entry<V>>): seq<string>
  {
    seq(|fs|, i requires 0 <= i < |fs| => fs[i].key)
  }

  predicate DistinctKeys<V>(fs: seq<Entry<V>>) {
    forall i, j :: 0 <= i < j < |fs| ==> fs[i].key != fs[j].key
  }

  /** `obj[k]`: the value under `k`, or None when `k` is not a key. */
  function Get<V>(fs: seq<Entry<V>>, k: string): (r: Option<V>)
    ensures r.Some? <==> k in Keys(fs)
    ensures r.Some? ==> Entry(k, r.value) in fs
  {
    if fs == [] then None
    else
      assert Keys(fs) == [fs[0].key] + Keys(fs[1..]);
      if fs[0].key == k then Some(fs[0].value) else Get(fs[1..], k)
  }

  /** `obj[k] = v` */
  function Put<V>(fs: seq<Entry<V>>, k: string, v: V): (r: seq<Entry<V>>)
    ensures Keys(r) == if k in Keys(fs) then Keys(fs) else Keys(fs) + [k]
  {
    if fs == [] then [Entry(k, v)]
    else
      assert Keys(fs) == [fs[0].key] + Keys(fs[1..]);
      if fs[0].key == k then
        assert Keys([Entry(k, v)] + fs[1..]) == [k] + Keys(fs[1..]);
        [Entry(k, v)] + fs[1..]
      else
      var rest := Put(fs[1..], k, v);
      assert Keys([fs[0]] + rest) == [fs[0].key] + Keys(rest);
      [fs[0]] + rest
  }

  /** After `obj[k] = v`, `obj[k]` is `v` and every other key reads as before. */
  lemma {:induction false} PutGet<V>(fs: seq<Entry<V>>, k: string, v: V)
    ensures Get(Put(fs, k, v), k) == Some(v)
    ensures forall k' :: k' != k ==> Get(Put(fs, k, v), k') == Get(fs, k')
  {
    if fs != [] && fs[0].key != k {
      PutGet(fs[1..], k, v);
      assert Put(fs, k, v)[1..] == Put(fs[1..], k, v);
    }
  }

  /** Assignment adds the new entry and keeps or drops old ones; it invents nothing else. */
  lemma {:induction false} PutEntries<V>(fs: seq<Entry<V>>, k: string, v: V)
    ensures forall e :: e in Put(fs, k, v) ==> e == Entry(k, v) || e in fs
  {
    if fs != [] && fs[0].key != k {
      PutEntries(fs[1..], k, v);
    }
  }

  /** Assignment never duplicates a key. */
  lemma {:induction false} PutDistinct<V>(fs: seq<Entry<V>>, k: string, v: V)
    requires DistinctKeys(fs)
    ensures DistinctKeys(Put(fs, k, v))
  {
    if fs == [] {
    } else if fs[0].key == k {
      var r := Put(fs, k, v);
      assert forall i :: 0 <= i < |r| ==> r[i].key == fs[i].key;
    } else {
      var rest := Put(fs[1..], k, v);
      assert DistinctKeys(fs[1..]);
      PutDistinct(fs[1..], k, v);
      assert Keys(fs) == [fs[0].key] + Keys(fs[1..]);
      assert fs[0].key !in Keys(rest);
      var r := [fs[0]] + rest;
      assert r == Put(fs, k, v);
      forall i, j | 0 <= i < j < |r|
        ensures r[i].key != r[j].key
      {
        if i == 0 {
          assert r[j].key == Keys(rest)[j - 1];
        }
      }
    }
  }

  /** Assigning the same key twice leaves only the second value. */
  lemma {:induction false} PutPut<V>(fs: seq<Entry<V>>, k: string, v1: V, v2: V)
    ensures Put(Put(fs, k, v1), k, v2) == Put(fs, k, v2)
  {
    if fs != [] && fs[0].key != k {
      PutPut(fs[1..], k, v1, v2);
      assert Put(fs, k, v1)[1..] == Put(fs[1..], k, v1);
    }
  }

  /** The object after assigning each entry of `es` in turn, starting from `{}`. */
  function PutAll<V>(es: seq<Entry<V>>): seq<Entry<V>>
  {
    if es == [] then [] else Put(PutAll(es[..|es| - 1]), es[|es| - 1].key, es[|es| - 1].value)
  }

  /** Assigning a new key appends it. */
  lemma {:induction false} PutNewKey<V>(fs: seq<Entry<V>>, k: string, v: V)
    requires k !in Keys(fs)
    ensures Put(fs, k, v) == fs + [Entry(k, v)]
  {
    if fs != [] {
      assert Keys(fs) == [fs[0].key] + Keys(fs[1..]);
      PutNewKey(fs[1..], k, v);
      assert fs + [Entry(k, v)] == [fs[0]] + (fs[1..] + [Entry(k, v)]);
    }
  }

  /** The keys after all assignments are distinct and are exactly the keys assigned. */
  lemma {:induction false} PutAllKeys<V>(es: seq<Entry<V>>)
    ensures DistinctKeys(PutAll(es))
    ensures forall k :: k in Keys(PutAll(es)) <==> k in Keys(es)
  {
    if es != [] {
      var init := es[..|es| - 1];
      var last := es[|es| - 1];
      PutAllKeys(init);
      PutDistinct(PutAll(init), last.key, last.value);
      assert Keys(es) == Keys(init) + [last.key];
    }
  }

  /** When no key is assigned twice, the object lists the entries in assignment order. */
  lemma {:induction false} PutAllDistinct<V>(es: seq<Entry<V>>)
    requires DistinctKeys(es)
    ensures PutAll(es) == es
  {
    if es != [] {
      var init := es[..|es| - 1];
      var last := es[|es| - 1];
      assert DistinctKeys(init);
      PutAllDistinct(init);
      assert forall i :: 0 <= i < |init| ==> Keys(init)[i] != last.key;
      PutNewKey(init, last.key, last.value);
      assert init + [last] == es;
    }
  }

  /** Every entry of the object is one of the entries assigned. */
  lemma {:induction false} PutAllEntries<V>(es: seq<Entry<V>>)
    ensures forall e :: e in PutAll(es) ==> e in es
  {
    if es != [] {
      var init := es[..|es| - 1];
      var last := es[|es| - 1];
      PutAllEntries(init);
      PutEntries(PutAll(init), last.key, last.value);
    }
  }

  /** In an object with distinct keys, `obj[key]` of the i-th entry is its value. */
  lemma {:induction false} GetDistinct<V>(fs: seq<Entry<V>>, i: nat)
    requires DistinctKeys(fs) && i < |fs|
    ensures Get(fs, fs[i].key) == Some(fs[i].value)
  {
    if i > 0 {
      assert DistinctKeys(fs[1..]);
      GetDistinct(fs[1..], i - 1);
    }
  }
}
