/** Insertion-ordered dictionaries with a bounded size. */
module OrderedDicts {
  import opened Wrappers

  datatype OrderedDict<K(==,!new), V> = OrderedDict(order: seq<K>, items: map<K, V>) {
    ghost predicate Valid() {
      NoDuplicates(order) && forall k :: k in order <==> k in items
    }

    /** Assigning to a key that is present keeps its position. */
    function Put(k: K, v: V): (r: OrderedDict<K, V>)
      ensures Valid() ==> r.Valid() && k in r.items && |order| <= |r.order| <= |order| + 1
      ensures k !in items ==> r.order == order + [k]
    {
      var r := if k in items then OrderedDict(order, items[k := v]) else OrderedDict(order + [k], items[k := v]);
      assert Valid() && k !in items ==> NoDuplicates(order + [k]);
      r
    }

    function Get(k: K): Option<V> {
      if k in items then Some(items[k]) else None
    }

    /** popitem(last=False): drops the oldest entry. */
    function PopFirst(): (r: OrderedDict<K, V>)
      requires order != []
      ensures Valid() ==> r.Valid()
    {
      var r := OrderedDict(order[1..], items - {order[0]});
      assert forall k :: k in order <==> k == order[0] || k in order[1..];
      r
    }
  }

  function Empty<K(==,!new), V>(): OrderedDict<K, V> {
    OrderedDict([], map[])
  }

  /** _enforce_maxsize: what is left are the newest entries, as many as fit, unchanged. */
  method EnforceMaxsize<K(==,!new), V>(cache: OrderedDict<K, V>, maxSize: nat) returns (r: OrderedDict<K, V>)
    requires cache.Valid()
    ensures r.Valid()
    ensures |r.order| == if |cache.order| <= maxSize then |cache.order| else maxSize
    ensures r.order == cache.order[|cache.order| - |r.order|..]
    ensures forall k :: k in r.items ==> k in cache.items && r.items[k] == cache.items[k]
  {
    r := cache;
    var oversize := |cache.order| - maxSize;
    while oversize > 0
      invariant r.Valid() && |r.order| <= |cache.order|
      invariant oversize == |r.order| - maxSize
      invariant |cache.order| <= maxSize ==> r == cache
      invariant |cache.order| > maxSize ==> oversize >= 0
      invariant r.order == cache.order[|cache.order| - |r.order|..]
      invariant forall k :: k in r.items ==> k in cache.items && r.items[k] == cache.items[k]
    {
      r := r.PopFirst();
      oversize := oversize - 1;
    }
  }
}
