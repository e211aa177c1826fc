/** An insertion-ordered dictionary with string keys, the way a Python `dict`
    behaves: `list(d)` gives the keys in insertion order, `d.pop(k)` deletes
    the entry for `k` without disturbing the others, and `d[k] = v` replaces
    the value of an existing key in place or appends a new entry at the end. */
module OrderedMap {
  import opened Wrappers

  type Entries<V> = seq<(string, V)>

  /** `list(d)`: the keys, in order. */
  function Keys<V>(d: Entries<V>): (ks: seq<string>)
    ensures |ks| == |d|
    ensures forall i :: 0 <= i < |d| ==> ks[i] == d[i].0
  {
    if d == [] then [] else [d[0].0] + Keys(d[1..])
  }

  /** The representation invariant of a dictionary: no key occurs twice. */
  predicate UniqueKeys<V>(d: Entries<V>) {
    d == [] || (d[0].0 !in Keys(d[1..]) && UniqueKeys(d[1..]))
  }

  /** `d.get(k)`. */
  function Get<V>(d: Entries<V>, k: string): (r: Option<V>)
    ensures r.Some? <==> k in Keys(d)
  {
    if d == [] then None
    else if d[0].0 == k then Some(d[0].1)
    else Get(d[1..], k)
  }

  /** `d.pop(k)` with the popped value discarded, for a key that is present
      (on a missing key Python raises `KeyError`). */
  function Remove<V>(d: Entries<V>, k: string): Entries<V> {
    if d == [] then []
    else if d[0].0 == k then d[1..]
    else
      var r := [d[0]] + Remove(d[1..], k);
      assert r[1..] == Remove(d[1..], k);
      r
  }

  /** `d[k] = v`. */
  function Put<V>(d: Entries<V>, k: string, v: V): Entries<V> {
    if d == [] then [(k, v)]
    else if d[0].0 == k then [(k, v)] + d[1..]
    else
      var r := [d[0]] + Put(d[1..], k, v);
      assert r[1..] == Put(d[1..], k, v);
      r
  }

  /** In a dictionary, looking up the key of any entry finds that entry's value. */
  lemma {:induction false} GetEntry<V>(d: Entries<V>, i: nat)
    requires UniqueKeys(d) && i < |d|
    ensures Get(d, d[i].0) == Some(d[i].1)
  {
    if i > 0 {
      GetEntry(d[1..], i - 1);
    }
  }

  /** Popping never introduces a key. */
  lemma {:induction false} RemoveKeys<V>(d: Entries<V>, k: string, k': string)
    requires k' in Keys(Remove(d, k))
    ensures k' in Keys(d)
  {
    if d != [] && d[0].0 != k {
      if k' != d[0].0 {
        RemoveKeys(d[1..], k, k');
      }
    }
  }

  /** Popping keeps a dictionary a dictionary and leaves the key absent. */
  lemma {:induction false} RemoveUnique<V>(d: Entries<V>, k: string)
    requires UniqueKeys(d)
    ensures UniqueKeys(Remove(d, k)) && k !in Keys(Remove(d, k))
  {
    if d != [] && d[0].0 != k {
      RemoveUnique(d[1..], k);
      var r := Remove(d, k);
      assert r[1..] == Remove(d[1..], k);
      if d[0].0 in Keys(Remove(d[1..], k)) {
        RemoveKeys(d[1..], k, d[0].0);
      }
    }
  }

  /** After popping `k`, every other key still finds its old value. */
  lemma {:induction false} GetRemove<V>(d: Entries<V>, k: string, k': string)
    requires UniqueKeys(d)
    ensures Get(Remove(d, k), k') == if k' == k then None else Get(d, k')
  {
    RemoveUnique(d, k);
    if d != [] && d[0].0 != k {
      GetRemove(d[1..], k, k');
    }
  }

  /** A fact about sequences, not about dictionaries: splitting off the
      head of `a` commutes with appending `b`. It models nothing of its own;
      `RemoveAt` calls it to keep its inductive step cheap. */
  lemma ConsConcat<T>(a: seq<T>, b: seq<T>)
    requires a != []
    ensures [a[0]] + (a[1..] + b) == a + b
  {
  }

  /** Popping a key that is present deletes exactly its entry and keeps the
      others in their order. */
  lemma {:induction false} RemoveAt<V>(a: Entries<V>, k: string, v: V, b: Entries<V>)
    requires k !in Keys(a)
    ensures Remove(a + [(k, v)] + b, k) == a + b
  {
    var d := a + [(k, v)] + b;
    if a == [] {
      assert d[1..] == b;
    } else {
      assert d[0] == a[0] && d[1..] == a[1..] + [(k, v)] + b;
      assert k !in Keys(a[1..]) by {
        assert Keys(a) == [a[0].0] + Keys(a[1..]);
      }
      RemoveAt(a[1..], k, v, b);
      ConsConcat(a, b);
    }
  }

  /** After `d[k] = v`, `k` finds `v` and every other key its old value. */
  lemma {:induction false} GetPut<V>(d: Entries<V>, k: string, v: V, k': string)
    ensures Get(Put(d, k, v), k') == if k' == k then Some(v) else Get(d, k')
  {
    if d != [] && d[0].0 != k {
      GetPut(d[1..], k, v, k');
    }
  }

  /** `d[k] = v` keeps the key order: an existing key stays where it was, a
      new key goes last. */
  lemma {:induction false} PutKeys<V>(d: Entries<V>, k: string, v: V)
    ensures Keys(Put(d, k, v)) == if k in Keys(d) then Keys(d) else Keys(d) + [k]
  {
    if d != [] && d[0].0 != k {
      PutKeys(d[1..], k, v);
      assert Keys(d) == [d[0].0] + Keys(d[1..]);
    }
  }

  /** `d[k] = v` keeps a dictionary a dictionary. */
  lemma {:induction false} PutUnique<V>(d: Entries<V>, k: string, v: V)
    requires UniqueKeys(d)
    ensures UniqueKeys(Put(d, k, v))
  {
    if d != [] && d[0].0 != k {
      PutUnique(d[1..], k, v);
      PutKeys(d[1..], k, v);
    } else if d != [] {
      assert Put(d, k, v)[1..] == d[1..];
    }
  }
}
