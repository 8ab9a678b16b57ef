/** Python's `dict` as the converter uses it: string keys, entries kept in
    insertion order, and assignment to an existing key keeping that key's
    position. */
module Dicts {
  import opened Results

  type Dict<V> = seq<(string, V)>

  function Keys<V>(d: Dict<V>): (ks: seq<string>)
    ensures |ks| == |d|
    ensures forall i :: 0 <= i < |d| ==> ks[i] == d[i].0
  {
    seq(|d|, i requires 0 <= i < |d| => d[i].0)
  }

  /** No key appears twice: true of every dict built with `Put`. */
  predicate DistinctKeys<V>(d: Dict<V>) {
    forall i, j :: 0 <= i < j < |d| ==> d[i].0 != d[j].0
  }

  /** Position of the entry holding `k`: the first one, and in a dict built
      with `Put` the only one. */
  function Find<V>(d: Dict<V>, k: string): (i: nat)
    requires k in Keys(d)
    ensures i < |d| && d[i].0 == k
    ensures forall j :: 0 <= j < i ==> d[j].0 != k
  {
    if d[0].0 == k then 0
    else
      assert Keys(d)[1..] == Keys(d[1..]);
      1 + Find(d[1..], k)
  }

  /** `d[k] = v`: an existing key keeps its place, a new one goes last. */
  function Put<V>(d: Dict<V>, k: string, v: V): (r: Dict<V>)
    ensures k in Keys(d) ==> Keys(r) == Keys(d)
    ensures k !in Keys(d) ==> r == d + [(k, v)]
  {
    if k in Keys(d) then
      var r := d[Find(d, k) := (k, v)];
      assert forall j :: 0 <= j < |d| ==> Keys(r)[j] == Keys(d)[j];
      r
    else d + [(k, v)]
  }

  /** `d[k]` for a key that is present: the value of its entry. */
  function Get<V>(d: Dict<V>, k: string): (v: V)
    requires k in Keys(d)
    ensures (k, v) in d
  {
    d[Find(d, k)].1
  }

  /** The first entry holding `k` in `c + [(k, w)] + e` is the one after
      `c` when `c` does not hold `k`. */
  lemma FindAt<V>(c: Dict<V>, k: string, w: V, e: Dict<V>)
    requires k !in Keys(c)
    ensures k in Keys(c + [(k, w)] + e)
    ensures Find(c + [(k, w)] + e, k) == |c|
  {
    var d := c + [(k, w)] + e;
    assert d[|c|] == (k, w);
    assert Keys(d)[|c|] == k;
    forall j | 0 <= j < |c|
      ensures d[j].0 != k
    {
      assert d[j] == c[j] && Keys(c)[j] == c[j].0;
    }
  }

  /** Assigning to a key whose first entry sits after `c` rewrites that
      entry alone. */
  lemma PutAt<V>(c: Dict<V>, k: string, w: V, e: Dict<V>, v: V)
    requires k !in Keys(c)
    ensures Put(c + [(k, w)] + e, k, v) == c + [(k, v)] + e
  {
    FindAt(c, k, w, e);
    var d := c + [(k, w)] + e;
    assert d[|c| := (k, v)] == c + [(k, v)] + e;
  }

  /** Reading a key whose first entry sits after `c` gives that entry's
      value. */
  lemma GetAt<V>(c: Dict<V>, k: string, w: V, e: Dict<V>)
    requires k !in Keys(c)
    ensures k in Keys(c + [(k, w)] + e)
    ensures Get(c + [(k, w)] + e, k) == w
  {
    FindAt(c, k, w, e);
  }

  /** `d.update(e)`: every entry of `e`, in order, assigned into `d`. */
  function PutAll<V>(d: Dict<V>, e: Dict<V>): Dict<V>
    decreases |e|
  {
    if e == [] then d else PutAll(Put(d, e[0].0, e[0].1), e[1..])
  }

  /** `d.update(e)` appends `e` when `e` brings only new, distinct keys. */
  lemma {:induction false} PutAllFresh<V>(d: Dict<V>, e: Dict<V>)
    requires DistinctKeys(d + e)
    ensures PutAll(d, e) == d + e
    decreases |e|
  {
    if e != [] {
      var x := e[0];
      assert (d + e)[|d|] == x;
      assert x.0 !in Keys(d) by {
        forall i | 0 <= i < |d|
          ensures Keys(d)[i] != x.0
        {
          assert (d + e)[i] == d[i];
        }
      }
      assert Put(d, x.0, x.1) == d + [x];
      assert d + e == (d + [x]) + e[1..];
      PutAllFresh(d + [x], e[1..]);
    }
  }
}
