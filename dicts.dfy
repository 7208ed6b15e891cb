/**
 * Python's `dict` with string keys: insertion-ordered, each key at most once.
 * Assigning to a key already present replaces its value where it stands;
 * a new key goes to the end.
 */
module Dicts {
  import opened Wrappers

  datatype Entry<V> = Entry(key: string, value: V)

  type Dict<V> = seq<Entry<V>>

  /** The keys in iteration order (`list(d)`). */
  function Keys<V>(d: Dict<V>): (ks: seq<string>)
    ensures |ks| == |d|
    ensures forall i :: 0 <= i < |d| ==> ks[i] == d[i].key
  {
    seq(|d|, i requires 0 <= i < |d| => d[i].key)
  }

  /** The position of `k` in `d`, or `|d|` when `k` is not a key. */
  function Find<V>(d: Dict<V>, k: string): (i: nat)
    ensures i <= |d|
    ensures i < |d| ==> d[i].key == k
    ensures forall j :: 0 <= j < i ==> d[j].key != k
  {
    if d == [] then 0
    else if d[0].key == k then 0
    else 1 + Find(d[1..], k)
  }

  /** `d.get(k)` */
  function Get<V>(d: Dict<V>, k: string): (r: Option<V>)
    ensures r.None? <==> k !in Keys(d)
  {
    var i := Find(d, k);
    if i < |d| then Some(d[i].value) else None
  }

  /** `d.get(k, default)` */
  function GetOr<V>(d: Dict<V>, k: string, default: V): (v: V)
    ensures k in Keys(d) ==> Get(d, k) == Some(v)
    ensures k !in Keys(d) ==> v == default
  {
    match Get(d, k)
    case Some(v) => v
    case None => default
  }

  /** `d[k] = v` */
  function Put<V>(d: Dict<V>, k: string, v: V): (r: Dict<V>)
    ensures Keys(r) == if k in Keys(d) then Keys(d) else Keys(d) + [k]
    ensures Get(r, k) == Some(v)
    ensures forall k' :: k' != k ==> Get(r, k') == Get(d, k')
  {
    var i := Find(d, k);
    if i < |d| then
      var r := d[i := Entry(k, v)];
      assert forall k' :: k' != k ==> Find(r, k') == Find(d, k') by {
        forall k' | k' != k ensures Find(r, k') == Find(d, k') {
          SameKeysSameFind(d, r, k');
        }
      }
      r
    else
      var r := d + [Entry(k, v)];
      assert forall k' :: k' != k ==> Get(r, k') == Get(d, k') by {
        forall k' | k' != k ensures Get(r, k') == Get(d, k') {
          AppendFind(d, Entry(k, v), k');
        }
      }
      r
  }

  lemma SameKeysSameFind<V>(d: Dict<V>, e: Dict<V>, k: string)
    requires |d| == |e|
    requires forall j :: 0 <= j < |d| ==> d[j].key == e[j].key
    ensures Find(d, k) == Find(e, k)
  {
  }

  lemma AppendFind<V>(d: Dict<V>, x: Entry<V>, k: string)
    ensures Find(d + [x], k) ==
            if Find(d, k) < |d| then Find(d, k) else if x.key == k then |d| else |d| + 1
  {
    var e := d + [x];
    var a, i := Find(d, k), Find(e, k);
    assert forall j :: 0 <= j < |d| ==> e[j] == d[j];
    assert e[|d|] == x;
  }

  /** The distinct elements of `s` in order of first occurrence: the keys a dict gets when `s` is assigned in order. */
  function Distinct(s: seq<string>): (r: seq<string>)
    ensures forall x :: x in r <==> x in s
    ensures forall i, j :: 0 <= i < j < |r| ==> r[i] != r[j]
    ensures |r| <= |s|
    decreases |s|
  {
    if s == [] then []
    else
      var n := |s| - 1;
      var r0 := Distinct(s[..n]);
      assert forall x :: x in s <==> x in s[..n] || x == s[n] by {
        assert s == s[..n] + [s[n]];
      }
      if s[n] in r0 then r0 else r0 + [s[n]]
  }

  /** The position of the first occurrence of `x` in `s`. */
  function FirstIndex(s: seq<string>, x: string): (i: nat)
    requires x in s
    ensures i < |s| && s[i] == x
    ensures forall k :: 0 <= k < i ==> s[k] != x
    decreases |s|
  {
    var n := |s| - 1;
    assert s == s[..n] + [s[n]];
    if x in s[..n] then FirstIndex(s[..n], x) else n
  }

  /** `Distinct` keeps elements in order of first occurrence. */
  lemma {:induction false} DistinctOrder(s: seq<string>)
    ensures forall i, j :: 0 <= i < j < |Distinct(s)| ==> FirstIndex(s, Distinct(s)[i]) < FirstIndex(s, Distinct(s)[j])
    decreases |s|
  {
    if s != [] {
      var n := |s| - 1;
      var r0 := Distinct(s[..n]);
      DistinctOrder(s[..n]);
      assert s == s[..n] + [s[n]];
      forall x | x in r0 ensures FirstIndex(s, x) == FirstIndex(s[..n], x) {
      }
      var r := Distinct(s);
      if s[n] !in r0 {
        assert r == r0 + [s[n]];
        assert FirstIndex(s, s[n]) == n;
        forall i, j | 0 <= i < j < |r| ensures FirstIndex(s, r[i]) < FirstIndex(s, r[j]) {
          if j == |r0| {
            assert r[i] == r0[i];
          } else {
            assert r[i] == r0[i] && r[j] == r0[j];
          }
        }
      }
    }
  }

  /** With distinct keys, the entry at position `i` is what its key looks up. */
  lemma GetAt<V>(d: Dict<V>, i: nat)
    requires i < |d|
    requires forall a, b :: 0 <= a < b < |Keys(d)| ==> Keys(d)[a] != Keys(d)[b]
    ensures Get(d, d[i].key) == Some(d[i].value)
  {
  }
}
