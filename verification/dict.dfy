/**
 * A plain JavaScript object used as a dictionary with string keys: lookups by key, and
 * enumeration (`Object.entries`) in the order keys were first inserted.
 */
module Dict {
  import opened Common

  datatype Entry<V> = Entry(key: string, val: V)

  /** Position of key `k`, if present. */
  function Find<V>(d: seq<Entry<V>>, k: string): (r: Option<nat>)
    ensures r.None? <==> forall i :: 0 <= i < |d| ==> d[i].key != k
    ensures r.Some? ==> r.value < |d| && d[r.value].key == k
    ensures r.Some? ==> forall i :: 0 <= i < r.value ==> d[i].key != k
  {
    if d == [] then None
    else if d[0].key == k then Some(0)
    else match Find(d[1..], k)
      case None => None
      case Some(i) => Some(i + 1)
  }

  /** Keys of a JavaScript object are unique. */
  predicate DistinctKeys<V>(d: seq<Entry<V>>)
  {
    forall i, j :: 0 <= i < j < |d| ==> d[i].key != d[j].key
  }

  /** `obj[k]`. */
  function Get<V>(d: seq<Entry<V>>, k: string): (found: Option<V>)
  {
    match Find(d, k)
    case None => None
    case Some(i) => Some(d[i].val)
  }

  /** `obj[k] = v`: an existing key keeps its place, a new key goes last. */
  function Put<V>(d: seq<Entry<V>>, k: string, v: V): (updated: seq<Entry<V>>)
  {
    match Find(d, k)
    case Some(i) => d[i := Entry(k, v)]
    case None => d + [Entry(k, v)]
  }

  /** After `obj[k] = v`, `obj[k]` is `v` and every other key reads as before. */
  lemma PutGet<V>(d: seq<Entry<V>>, k: string, v: V, other: string)
    ensures Get(Put(d, k, v), k) == Some(v)
    ensures other != k ==> Get(Put(d, k, v), other) == Get(d, other)
  {
    var r := Put(d, k, v);
    match Find(d, k)
    case Some(i) =>
      assert forall j :: 0 <= j < |d| ==> r[j].key == d[j].key;
      assert Find(r, k) == Some(i);
      if other != k {
        var f := Find(d, other);
        if f.Some? {
          assert Find(r, other) == f;
        }
      }
    case None =>
      assert r == d + [Entry(k, v)];
      assert forall j :: 0 <= j < |d| ==> r[j] == d[j];
      assert r[|d|].key == k;
      assert Find(r, k) == Some(|d|);
      if other != k {
        var f := Find(d, other);
        if f.Some? {
          assert Find(r, other) == f;
        }
      }
  }

  /** `obj[k] = v` keeps the keys unique and their enumeration order: at most `k` is appended. */
  lemma PutKeys<V>(d: seq<Entry<V>>, k: string, v: V)
    requires DistinctKeys(d)
    ensures DistinctKeys(Put(d, k, v))
    ensures Find(d, k).Some? ==> |Put(d, k, v)| == |d| && forall i :: 0 <= i < |d| ==> Put(d, k, v)[i].key == d[i].key
    ensures Find(d, k).None? ==> Put(d, k, v) == d + [Entry(k, v)]
  {
  }

  /** Sum of the values of a counter object. */
  function Total(d: seq<Entry<nat>>): nat
  {
    if d == [] then 0 else Total(d[..|d| - 1]) + d[|d| - 1].val
  }

  /** `if (!obj[k]) obj[k] = 0; obj[k]++` on a counter object. */
  function Increment(d: seq<Entry<nat>>, k: string): (incremented: seq<Entry<nat>>)
  {
    match Get(d, k)
    case None => Put(d, k, 1)
    case Some(n) => Put(d, k, n + 1)
  }

  lemma {:induction false} TotalUpdate(d: seq<Entry<nat>>, i: nat, e: Entry<nat>)
    requires i < |d|
    ensures Total(d[i := e]) == Total(d) - d[i].val + e.val
  {
    if i < |d| - 1 {
      TotalUpdate(d[..|d| - 1], i, e);
      assert d[i := e][..|d| - 1] == d[..|d| - 1][i := e];
    } else {
      assert d[i := e][..|d| - 1] == d[..|d| - 1];
    }
  }

  /** One increment raises exactly the tally of `k` by one, so the grand total grows by one. */
  lemma IncrementCounts(d: seq<Entry<nat>>, k: string, other: string)
    ensures Total(Increment(d, k)) == Total(d) + 1
    ensures Get(Increment(d, k), k) == Some(match Get(d, k) case None => 1 case Some(n) => n + 1)
    ensures other != k ==> Get(Increment(d, k), other) == Get(d, other)
    ensures DistinctKeys(d) ==> DistinctKeys(Increment(d, k))
  {
    match Find(d, k)
    case Some(i) =>
      TotalUpdate(d, i, Entry(k, d[i].val + 1));
      PutGet(d, k, d[i].val + 1, other);
      if DistinctKeys(d) {
        PutKeys(d, k, d[i].val + 1);
      }
    case None =>
      assert (d + [Entry(k, 1)])[..|d|] == d;
      PutGet(d, k, 1, other);
      if DistinctKeys(d) {
        PutKeys(d, k, 1);
      }
  }
}
