/** The API-key rotator, `itertools.cycle(api_keys)`, consumed by one
    `next(...)` per fetch. */
module Rotation {
  import opened Wrappers

  /** The key the `n`-th call (counting from 0) obtains, or None when the
      key list is empty and `next` raises `StopIteration`. */
  function KeyAt(keys: seq<string>, n: nat): (r: Option<string>)
    ensures r.None? <==> keys == []
    ensures r.Some? ==> r.value in keys
  {
    if keys == [] then None else Some(keys[n % |keys|])
  }

  class KeyRotator {
    /** The configured keys, never changed. */
    const keys: seq<string>
    /** Index of the key the next call returns. */
    var cursor: nat
    /** Number of calls made so far. */
    ghost var calls: nat

    ghost predicate Valid()
      reads this
    {
      if keys == [] then cursor == 0 else cursor == calls % |keys|
    }

    constructor (keys: seq<string>)
      ensures Valid() && this.keys == keys && calls == 0
    {
      this.keys := keys;
      cursor := 0;
      calls := 0;
    }

    /** `next(api_key_cycle)`: the key under the cursor, after which the
        cursor moves on cyclically. */
    method Next() returns (key: Option<string>)
      requires Valid()
      modifies this
      ensures Valid() && calls == old(calls) + 1
      ensures key == KeyAt(keys, old(calls))
    {
      if keys == [] {
        key := None;
      } else {
        key := Some(keys[cursor]);
        NextSlot(calls, |keys|);
        cursor := (cursor + 1) % |keys|;
      }
      calls := calls + 1;
    }
  }

  lemma NextSlot(n: nat, k: nat)
    requires k > 0
    ensures (n + 1) % k == (n % k + 1) % k
  {
    var q, r := n / k, n % k;
    DivMod(n, k);
    if r + 1 < k {
      DivModOf(n + 1, k, q, r + 1);
      DivModOf(r + 1, k, 0, r + 1);
    } else {
      DivModOf(n + 1, k, q + 1, 0);
      DivModOf(r + 1, k, 1, 0);
    }
  }

  /** The keys handed out by the first `n` calls. */
  function Served(keys: seq<string>, n: nat): (r: seq<string>)
    requires keys != []
    ensures |r| == n
  {
    if n == 0 then [] else Served(keys, n - 1) + [keys[(n - 1) % |keys|]]
  }

  /** Number of the first `n` calls that land on key index `j` of `k` keys. */
  function SlotCount(n: nat, k: nat, j: nat): nat
    requires k > 0
  {
    if n == 0 then 0 else SlotCount(n - 1, k, j) + (if (n - 1) % k == j then 1 else 0)
  }

  /** The `i`-th served key is the key at index `i mod K`. */
  lemma {:induction false} ServedAt(keys: seq<string>, n: nat, i: nat)
    requires keys != [] && i < n
    ensures Served(keys, n)[i] == keys[i % |keys|]
    ensures Some(Served(keys, n)[i]) == KeyAt(keys, i)
  {
    if i < n - 1 {
      ServedAt(keys, n - 1, i);
    }
  }

  /** Among the first `n` calls, key index `j` is used `n / k` times, once
      more when `j < n % k`. */
  lemma {:induction false} SlotCountValue(n: nat, k: nat, j: nat)
    requires 0 < k && j < k
    ensures SlotCount(n, k, j) == n / k + (if j < n % k then 1 else 0)
  {
    if n > 0 {
      SlotCountValue(n - 1, k, j);
      ModStep(n - 1, k);
    }
  }

  /** How quotient and remainder move when the dividend grows by one. */
  lemma ModStep(x: nat, k: nat)
    requires 0 < k
    ensures x % k + 1 < k ==> (x + 1) / k == x / k && (x + 1) % k == x % k + 1
    ensures x % k + 1 == k ==> (x + 1) / k == x / k + 1 && (x + 1) % k == 0
  {
    var q, r := x / k, x % k;
    DivMod(x, k);
    if r + 1 < k {
      DivModOf(x + 1, k, q, r + 1);
    } else {
      DivModOf(x + 1, k, q + 1, 0);
    }
  }

  lemma DivMod(x: nat, k: nat)
    requires 0 < k
    ensures x == (x / k) * k + x % k && 0 <= x % k < k
  {
  }

  /** Euclidean division is unique: the quotient and remainder of `x` by
      `k` are the `q` and `r` with `x == q * k + r` and `r < k`. */
  lemma DivModOf(x: nat, k: nat, q: nat, r: nat)
    requires 0 < k && r < k && x == q * k + r
    ensures x / k == q && x % k == r
  {
    var q', r' := x / k, x % k;
    DivMod(x, k);
    if q' < q {
      MulMono(q' + 1, q, k);
    } else if q < q' {
      MulMono(q + 1, q', k);
    }
  }

  lemma MulMono(a: nat, b: nat, k: nat)
    requires a <= b
    ensures a * k <= b * k && (a + 1) * k == a * k + k
  {
  }

  /** Rotation is fair: over `n` calls every key index is used either
      floor(n / k) or ceil(n / k) times. */
  lemma RotationFair(n: nat, k: nat, j: nat)
    requires 0 < k && j < k
    ensures n / k <= SlotCount(n, k, j) <= (n + k - 1) / k
  {
    SlotCountValue(n, k, j);
    CeilDiv(n, k);
  }

  /** Rounding up: `(n + k - 1) / k` is `n / k`, plus one unless `k`
      divides `n`. */
  lemma CeilDiv(n: nat, k: nat)
    requires 0 < k
    ensures (n + k - 1) / k == n / k + (if n % k == 0 then 0 else 1)
  {
    var q, r := n / k, n % k;
    DivMod(n, k);
    if r == 0 {
      DivModOf(n + k - 1, k, q, k - 1);
    } else {
      MulMono(q, q, k);
      DivModOf(n + k - 1, k, q + 1, r - 1);
    }
  }

  /** With pairwise different keys, the number of times key `j` is served
      over `n` calls is exactly its slot count. */
  lemma {:induction false} ServedCount(keys: seq<string>, n: nat, j: nat)
    requires j < |keys|
    requires forall a, b :: 0 <= a < b < |keys| ==> keys[a] != keys[b]
    ensures multiset(Served(keys, n))[keys[j]] == SlotCount(n, |keys|, j)
  {
    if n > 0 {
      ServedCount(keys, n - 1, j);
      var slot := (n - 1) % |keys|;
      assert Served(keys, n) == Served(keys, n - 1) + [keys[slot]];
      CountSnoc(Served(keys, n - 1), keys[slot], keys[j]);
      DistinctKeysAt(keys, slot, j);
    }
  }

  /** Appending `x` adds one occurrence of `x` and none of anything else. */
  lemma CountSnoc(s: seq<string>, x: string, y: string)
    ensures multiset(s + [x])[y] == multiset(s)[y] + (if x == y then 1 else 0)
  {
    assert multiset(s + [x]) == multiset(s) + multiset{x};
  }

  /** Among pairwise different keys, equal keys sit at equal indices. */
  lemma DistinctKeysAt(keys: seq<string>, a: nat, b: nat)
    requires a < |keys| && b < |keys|
    requires forall p, q :: 0 <= p < q < |keys| ==> keys[p] != keys[q]
    ensures keys[a] == keys[b] <==> a == b
  {
    if a < b {
      assert keys[a] != keys[b];
    } else if b < a {
      assert keys[b] != keys[a];
    }
  }
}
