/** A Python `dict` (or a JavaScript object with non-numeric string keys): a
    sequence of key/value entries in insertion order in which no key occurs
    twice. Assigning to an existing key replaces its value in place; assigning
    to a new key appends an entry. */
module OrderedDict {
  import opened Results

  predicate UniqueKeys<V>(d: seq<(string, V)>) {
    forall i, j :: 0 <= i < j < |d| ==> d[i].0 != d[j].0
  }

  type Dict<V> = d: seq<(string, V)> | UniqueKeys(d)

  /** The keys, in iteration order. */
  function Keys<V>(d: seq<(string, V)>): (ks: seq<string>)
    ensures |ks| == |d|
    ensures forall i :: 0 <= i < |d| ==> ks[i] == d[i].0
  {
    seq(|d|, i requires 0 <= i < |d| => d[i].0)
  }

  lemma KeysTail<V>(d: seq<(string, V)>)
    requires |d| > 0
    ensures Keys(d) == [d[0].0] + Keys(d[1..])
  {
  }

  /** Uniqueness depends on the keys alone. */
  lemma UniqueByKeys<V, W>(a: seq<(string, V)>, b: seq<(string, W)>)
    requires Keys(a) == Keys(b) && UniqueKeys(b)
    ensures UniqueKeys(a)
  {
    forall i, j | 0 <= i < j < |a|
      ensures a[i].0 != a[j].0
    {
      assert Keys(a)[i] == b[i].0 && Keys(a)[j] == b[j].0;
    }
  }

  /** `d[k]` when `k in d`, and `None` where Python would raise `KeyError`. */
  function Lookup<V>(d: Dict<V>, k: string): (r: Option<V>)
    ensures r.Some? <==> k in Keys(d)
    ensures r.Some? ==> (k, r.value) in d
    decreases |d|
  {
    if |d| == 0 then None
    else if d[0].0 == k then Some(d[0].1)
    else KeysTail(d); Lookup(d[1..], k)
  }

  /** With unique keys an entry is what a lookup of its key finds. */
  lemma {:induction false} LookupEntry<V>(d: Dict<V>, i: nat)
    requires i < |d|
    ensures Lookup(d, d[i].0) == Some(d[i].1)
    decreases i
  {
    if i > 0 {
      LookupEntry(d[1..], i - 1);
    }
  }

  /** Position of key `k` in `d`, or `|d|` when it is absent. */
  function IndexOfKey<V>(d: seq<(string, V)>, k: string): (i: nat)
    ensures i <= |d|
    ensures i < |d| <==> k in Keys(d)
    ensures i < |d| ==> d[i].0 == k
    decreases |d|
  {
    if |d| == 0 then 0
    else if d[0].0 == k then 0
    else
      var j := IndexOfKey(d[1..], k);
      IndexPastHead(d, k, j);
      1 + j
  }

  /** Past a head whose key differs, the search goes on in the tail. */
  lemma IndexPastHead<V>(d: seq<(string, V)>, k: string, j: nat)
    requires |d| > 0 && d[0].0 != k && j <= |d| - 1
    requires j < |d| - 1 <==> k in Keys(d[1..])
    requires j < |d| - 1 ==> d[1..][j].0 == k
    ensures 1 + j < |d| <==> k in Keys(d)
    ensures 1 + j < |d| ==> d[1 + j].0 == k
  {
    KeysTail(d);
  }

  /** A lookup sees an entry whose key differs from `k'` as absent. */
  lemma LookupOther<V>(d: Dict<V>, i: nat, e: (string, V), k': string)
    requires i < |d| && e.0 == d[i].0 && k' != e.0
    requires UniqueKeys(d[i := e])
    ensures Lookup(d[i := e], k') == Lookup(d, k')
  {
    var d': Dict<V> := d[i := e];
    assert Keys(d') == Keys(d);
    if k' in Keys(d) {
      var j :| 0 <= j < |d| && d[j].0 == k';
      LookupEntry(d, j);
      LookupEntry(d', j);
    }
  }

  /** `d[k] = v`: the key order changes only by appending `k` when it was
      absent, in which case the entry is appended; `SetLookup` states the
      values. */
  function Set<V>(d: Dict<V>, k: string, v: V): (r: Dict<V>)
    ensures Keys(r) == if k in Keys(d) then Keys(d) else Keys(d) + [k]
    ensures k !in Keys(d) ==> r == d + [(k, v)]
  {
    var i := IndexOfKey(d, k);
    if i < |d| then
      var r: seq<(string, V)> := d[i := (k, v)];
      assert Keys(r) == Keys(d);
      r
    else
      var r: seq<(string, V)> := d + [(k, v)];
      assert Keys(r) == Keys(d) + [k];
      r
  }

  /** After `d[k] = v`, `k` is bound to `v` and every other key keeps its value. */
  lemma SetLookup<V>(d: Dict<V>, k: string, v: V, k': string)
    ensures Lookup(Set(d, k, v), k') == if k' == k then Some(v) else Lookup(d, k')
  {
    var r := Set(d, k, v);
    var i := IndexOfKey(d, k);
    if i < |d| {
      assert r == d[i := (k, v)];
      if k' == k {
        LookupEntry(r, i);
      } else {
        LookupOther(d, i, (k, v), k');
      }
    } else if k' == k {
      LookupEntry(r, |d|);
    } else if k' in Keys(d) {
      var j :| 0 <= j < |d| && d[j].0 == k';
      LookupEntry(d, j);
      LookupEntry(r, j);
    }
  }
}
