/**
 * An insertion-ordered `dict`, as CPython 3.7 and later has, for the sensor
 * registry: keys are names, iteration visits the keys in the order they were
 * first inserted, and assigning to a key that is already present replaces its
 * value and keeps its position. (MicroPython's built-in `dict` iterates in
 * hash order instead; the model assumes insertion order.)
 * A dict is represented by its `items()`: the (key, value) pairs in
 * iteration order.
 */
module OrderedDict {
  import opened Wrappers

  datatype Dict<V> = Dict(items: seq<(string, V)>)

  /** No key occurs twice. */
  ghost predicate WellFormed<V>(d: Dict<V>)
  {
    forall i, j :: 0 <= i < j < |d.items| ==> d.items[i].0 != d.items[j].0
  }

  /** `dict()` */
  function Empty<V>(): (r: Dict<V>)
    ensures WellFormed(r) && |r.items| == 0
  {
    Dict([])
  }

  /** The position of the first pair whose key is `k`, if there is one. */
  function Find<V>(items: seq<(string, V)>, k: string): (r: Option<nat>)
    ensures r.Some? ==> r.value < |items| && items[r.value].0 == k
    ensures r.Some? ==> forall j :: 0 <= j < r.value ==> items[j].0 != k
    ensures r.None? ==> forall j :: 0 <= j < |items| ==> items[j].0 != k
  {
    if items == [] then None
    else if items[0].0 == k then Some(0)
    else match Find(items[1..], k)
      case Some(i) => Some(i + 1)
      case None => None
  }

  /** `d.get(k)` */
  function Get<V>(d: Dict<V>, k: string): (r: Option<V>)
  {
    match Find(d.items, k)
    case Some(i) => Some(d.items[i].1)
    case None => None
  }

  /** The keys in iteration order, `list(d)`. */
  function Keys<V>(d: Dict<V>): (ks: seq<string>)
  {
    seq(|d.items|, i requires 0 <= i < |d.items| => d.items[i].0)
  }

  /**
   * `d[k] = v`: every pair keeps its key and position, the pair of `k` now
   * holds `v`, all other pairs are untouched, and `k` is appended exactly
   * when it was not yet a key.
   */
  function Put<V>(d: Dict<V>, k: string, v: V): (r: Dict<V>)
    requires WellFormed(d)
    ensures WellFormed(r)
    ensures |r.items| == if Get(d, k).Some? then |d.items| else |d.items| + 1
    ensures forall i :: 0 <= i < |d.items| ==> r.items[i].0 == d.items[i].0
    ensures forall i :: 0 <= i < |d.items| && d.items[i].0 != k ==> r.items[i] == d.items[i]
    ensures forall i :: 0 <= i < |r.items| && r.items[i].0 == k ==> r.items[i].1 == v
    ensures Get(d, k).None? ==> r.items == d.items + [(k, v)]
  {
    match Find(d.items, k)
    case Some(i) => Dict(d.items[i := (k, v)])
    case None => Dict(d.items + [(k, v)])
  }

  /** In a well-formed dict, `Get` finds a key at its one position. */
  lemma GetAt<V>(d: Dict<V>, i: nat)
    requires WellFormed(d) && i < |d.items|
    ensures Get(d, d.items[i].0) == Some(d.items[i].1)
  {
  }

  /** After `d[k] = v`, `d.get(k)` is `v` and every other key reads as before. */
  lemma {:induction false} PutGet<V>(d: Dict<V>, k: string, v: V, j: string)
    requires WellFormed(d)
    ensures Get(Put(d, k, v), k) == Some(v)
    ensures j != k ==> Get(Put(d, k, v), j) == Get(d, j)
  {
    var r := Put(d, k, v);
    GetAt(r, if Get(d, k).Some? then Find(d.items, k).value else |d.items|);
    if j != k {
      var fd, fr := Find(d.items, j), Find(r.items, j);
      if fd.Some? {
        GetAt(r, fd.value);
      }
    }
  }

  /** Assigning the same key twice leaves only the second value: last write wins. */
  lemma PutTwice<V>(d: Dict<V>, k: string, v1: V, v2: V)
    requires WellFormed(d)
    ensures Put(Put(d, k, v1), k, v2) == Put(d, k, v2)
  {
    var a, b := Put(Put(d, k, v1), k, v2), Put(d, k, v2);
    PutGet(d, k, v1, k);
    assert |a.items| == |b.items|;
    forall i | 0 <= i < |a.items|
      ensures a.items[i] == b.items[i]
    {
      if i < |d.items| && d.items[i].0 != k {
      } else {
        assert a.items[i].0 == k && b.items[i].0 == k;
      }
    }
  }
}
