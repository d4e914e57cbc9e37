/** Primary keys. The database's auto-increment is replaced by the least unused key. */
module Ids {

  /** The keys 0 .. n-1. */
  function Range(n: nat): set<nat> {
    if n == 0 then {} else Range(n - 1) + {n - 1}
  }

  lemma {:induction false} RangeFacts(n: nat)
    ensures |Range(n)| == n
    ensures forall j: nat :: j in Range(n) <==> j < n
  {
    if n > 0 {
      RangeFacts(n - 1);
    }
  }

  /** A set that holds every key below `n` has at least `n` elements. */
  lemma DenseBelow(keys: set<nat>, n: nat)
    requires forall j: nat :: j < n ==> j in keys
    ensures n <= |keys|
  {
    RangeFacts(n);
    var rest := keys - Range(n);
    assert keys == Range(n) + rest;
    assert Range(n) !! rest;
  }

  /** Searches upward from `k` for a key not yet in use. */
  function FreshFrom(keys: set<nat>, k: nat): (r: nat)
    requires forall j: nat :: j < k ==> j in keys
    ensures r !in keys && k <= r
    ensures forall j: nat :: j < r ==> j in keys
    decreases |keys| - k
  {
    if k !in keys then k
    else
      DenseBelow(keys, k + 1);
      FreshFrom(keys, k + 1)
  }

  /** The least key not in `keys`: the id a new row receives. */
  function FreshId(keys: set<nat>): (r: nat)
    ensures r !in keys
    ensures forall j: nat :: j < r ==> j in keys
    ensures r <= |keys|
  {
    var r := FreshFrom(keys, 0);
    DenseBelow(keys, r);
    r
  }
}
