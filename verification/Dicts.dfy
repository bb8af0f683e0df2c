/** Python's insertion-ordered dictionaries as values. */
module Dicts {
  import opened Options

  datatype Dict<V> = Dict(order: seq<string>, items: map<string, V>)

  function Empty<V>(): Dict<V> {
    Dict([], map[])
  }

  ghost predicate NoDuplicates<T>(s: seq<T>) {
    forall i, j :: 0 <= i < j < |s| ==> s[i] != s[j]
  }

  ghost predicate WellFormed<V>(d: Dict<V>) {
    NoDuplicates(d.order) && (forall k :: k in d.order <==> k in d.items)
  }

  function Get<V>(d: Dict<V>, k: string): Option<V> {
    if k in d.items then Some(d.items[k]) else None
  }

  /** d[k] = v: a new key goes last, a known key keeps its place. */
  function Put<V>(d: Dict<V>, k: string, v: V): Dict<V> {
    Dict(if k in d.items then d.order else d.order + [k], d.items[k := v])
  }

  function Without(order: seq<string>, k: string): seq<string> {
    if order == [] then []
    else if order[0] == k then Without(order[1..], k)
    else [order[0]] + Without(order[1..], k)
  }

  /** d.pop(k, None) */
  function Remove<V>(d: Dict<V>, k: string): Dict<V> {
    Dict(Without(d.order, k), d.items - {k})
  }

  /** list(d.values()) */
  function Values<V>(d: Dict<V>): (vs: seq<V>)
    requires WellFormed(d)
    ensures |vs| == |d.order| && forall i :: 0 <= i < |vs| ==> vs[i] == d.items[d.order[i]]
  {
    seq(|d.order|, i requires 0 <= i < |d.order| => assert d.order[i] in d.order; d.items[d.order[i]])
  }

  lemma PutWellFormed<V>(d: Dict<V>, k: string, v: V)
    requires WellFormed(d)
    ensures WellFormed(Put(d, k, v))
  {
    var e := Put(d, k, v);
    forall x ensures x in e.order <==> x in e.items {
      if k !in d.items {
        assert e.order == d.order + [k];
      }
    }
  }

  lemma {:induction false} WithoutOrder(order: seq<string>, k: string)
    ensures forall x :: x in Without(order, k) <==> x in order && x != k
    ensures NoDuplicates(order) ==> NoDuplicates(Without(order, k))
  {
    if order != [] {
      WithoutOrder(order[1..], k);
      forall x ensures x in Without(order, k) <==> x in order && x != k {
        assert x in order <==> x == order[0] || x in order[1..];
      }
      if NoDuplicates(order) {
        var rest := Without(order[1..], k);
        assert order[0] !in order[1..] && order[0] !in rest;
        forall i, j | 0 <= i < j < |Without(order, k)| ensures Without(order, k)[i] != Without(order, k)[j] {
          if order[0] != k {
            if i == 0 {
              assert rest[j - 1] in rest;
            } else {
              assert rest[i - 1] != rest[j - 1];
            }
          }
        }
      }
    }
  }

  lemma {:induction false} WithoutAbsent(order: seq<string>, k: string)
    requires k !in order
    ensures Without(order, k) == order
  {
    if order != [] {
      WithoutAbsent(order[1..], k);
      assert order == [order[0]] + order[1..];
    }
  }

  /** Removing a key closes the gap it leaves. */
  lemma {:induction false} WithoutCloses(left: seq<string>, k: string, right: seq<string>)
    requires k !in left && k !in right
    ensures Without(left + [k] + right, k) == left + right
  {
    var order := left + [k] + right;
    if left == [] {
      assert order[0] == k && order[1..] == right && left + right == right;
      WithoutAbsent(right, k);
    } else {
      var rest := left[1..];
      assert order[0] == left[0] && order[1..] == rest + [k] + right;
      WithoutCloses(rest, k, right);
      assert left + right == [left[0]] + (rest + right);
    }
  }

  lemma RemoveWellFormed<V>(d: Dict<V>, k: string)
    requires WellFormed(d)
    ensures WellFormed(Remove(d, k))
  {
    WithoutOrder(d.order, k);
  }
}
