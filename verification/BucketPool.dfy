/** Pools of byte buffers, one for each of the sizes that double from the smallest to the largest. */
module BucketPool {
  import opened Bytes
  import opened Options

  // ----- bit arithmetic -----

  /** `bits.Len64`: how many bits a number needs. */
  function Len64(n: nat): (r: nat)
    ensures n < Pow2(r)
    ensures n > 0 ==> r > 0 && Pow2(r - 1) <= n
  {
    if n == 0 then 0 else 1 + Len64(n / 2)
  }

  /** `a & b` */
  function And(a: nat, b: nat): (r: nat) {
    if a == 0 || b == 0 then 0 else a % 2 * (b % 2) + 2 * And(a / 2, b / 2)
  }

  lemma {:induction false} AndSelf(a: nat)
    ensures And(a, a) == a
  {
    if a == 0 {
    } else {
      AndSelf(a / 2);
    }
  }

  /** `n & (n - 1)` is zero exactly for powers of two. */
  lemma {:induction false} AndPredecessor(n: nat)
    requires n > 0
    ensures And(n, n - 1) == 0 <==> n == Pow2(Len64(n) - 1)
  {
    if n <= 1 {
    } else if n % 2 == 1 {
      OddPredecessor(n);
    } else {
      AndPredecessor(n / 2);
      EvenPredecessor(n);
    }
  }

  /** An odd number keeps its other bits. */
  lemma OddPredecessor(n: nat)
    requires n > 1 && n % 2 == 1
    ensures And(n, n - 1) > 0 && n != Pow2(Len64(n) - 1)
  {
    assert (n - 1) / 2 == n / 2 && (n - 1) % 2 == 0;
    AndSelf(n / 2);
    assert Len64(n) == 1 + Len64(n / 2);
    hide And, Len64;
  }

  /** An even number is like its half. */
  lemma EvenPredecessor(n: nat)
    requires n > 1 && n % 2 == 0
    ensures And(n, n - 1) == 2 * And(n / 2, n / 2 - 1)
    ensures Len64(n) == 1 + Len64(n / 2) && Pow2(Len64(n) - 1) == 2 * Pow2(Len64(n / 2) - 1)
  {
    assert (n - 1) / 2 == n / 2 - 1 && (n - 1) % 2 == 1;
  }

  // ----- bucket sizes -----

  /** The size of bucket `k`: doubled `k` times, and never above the largest. */
  function BucketSize(minSize: nat, maxSize: nat, k: nat): (r: nat) {
    if minSize * Pow2(k) < maxSize then minSize * Pow2(k) else maxSize
  }

  /** The sizes of a pool: each bucket is below the largest size but the last, which has it. */
  ghost predicate Doubling(minSize: nat, maxSize: nat, sizes: seq<nat>) {
    && 0 < |sizes|
    && (forall k :: 0 <= k < |sizes| ==> sizes[k] == BucketSize(minSize, maxSize, k))
    && (forall k :: 0 <= k < |sizes| - 1 ==> minSize * Pow2(k) < maxSize)
    && minSize * Pow2(|sizes| - 1) >= maxSize
  }

  /** The loop of `New`; sizes stay where doubling them does not overflow. */
  method Sizes(minSize: nat, maxSize: nat) returns (sizes: seq<nat>)
    requires 0 < minSize <= maxSize <= 0x4000_0000_0000_0000
    ensures Doubling(minSize, maxSize, sizes)
  {
    sizes := [];
    var curSize := minSize;
    while curSize < maxSize
      invariant curSize == minSize * Pow2(|sizes|) && curSize > 0
      invariant forall k :: 0 <= k < |sizes| ==> sizes[k] == minSize * Pow2(k) < maxSize
      decreases maxSize - curSize
    {
      Doubled(minSize, |sizes|);
      sizes := sizes + [curSize];
      curSize := curSize * 2;
    }
    sizes := sizes + [maxSize];
  }

  lemma Doubled(m: nat, k: nat)
    ensures m * Pow2(k + 1) == m * Pow2(k) * 2
  {
  }

  /** The smallest bucket that fits: big enough, and the one before it is not. */
  ghost predicate Smallest(sizes: seq<nat>, size: nat, idx: nat) {
    idx < |sizes| && size <= sizes[idx] && (idx > 0 ==> sizes[idx - 1] < size)
  }

  /** The index `findPool` computes from a quotient and a remainder. */
  function Index(div: nat, rem: nat): (r: int)
    ensures r >= 0
  {
    if rem == 0 && div != 0 && And(div, div - 1) == 0 then Len64(div) - 1 else Len64(div)
  }

  /** `findPool`: the index of a bucket, or none where the size is above the largest. */
  function FindPool(minSize: nat, maxSize: nat, size: nat): (r: Option<nat>)
    requires minSize > 0
  {
    if size > maxSize then None else Some(Index(size / minSize, size % minSize))
  }

  lemma MulMono(a: nat, b: nat, m: nat)
    requires a <= b
    ensures m * a <= m * b
  {
  }

  lemma Above(m: nat, q: nat, r: nat, p: nat)
    requires r < m && q < p
    ensures m * q + r < m * p
  {
    MulMono(q + 1, p, m);
  }

  lemma Below(m: nat, q: nat, r: nat, p: nat)
    requires m > 0 && p <= q && (r > 0 || p < q)
    ensures m * p < m * q + r
  {
    MulMono(p, q, m);
    if p < q {
      MulMono(p + 1, q, m);
    }
  }

  lemma HalfIsLess(k: nat)
    requires k > 0
    ensures Pow2(k - 1) < Pow2(k)
  {
  }

  /** In terms of doubled sizes: that many doublings reach the size, and one fewer do not. */
  lemma IndexBounds(m: nat, div: nat, rem: nat)
    requires rem < m
    ensures var idx := Index(div, rem);
            m * div + rem <= m * Pow2(idx) && (idx > 0 ==> m * Pow2(idx - 1) < m * div + rem)
  {
    var len := Len64(div);
    Above(m, div, rem, Pow2(len));
    if div > 0 {
      AndPredecessor(div);
      if rem == 0 && div == Pow2(len - 1) {
        if len > 1 {
          HalfIsLess(len - 1);
          Below(m, div, rem, Pow2(len - 2));
        }
      } else {
        Below(m, div, rem, Pow2(len - 1));
      }
    }
    hide Pow2, And, Len64;
  }

  lemma FindPoolBounds(minSize: nat, maxSize: nat, size: nat)
    requires 0 < minSize && size <= maxSize
    ensures var idx := FindPool(minSize, maxSize, size).value;
            size <= minSize * Pow2(idx) && (idx > 0 ==> minSize * Pow2(idx - 1) < size)
  {
    hide Index, Pow2;
    IndexBounds(minSize, size / minSize, size % minSize);
    assert size == minSize * (size / minSize) + size % minSize;
  }

  /** `findPool` stays in bounds and picks the smallest bucket that fits. */
  lemma FindPoolSmallest(minSize: nat, maxSize: nat, sizes: seq<nat>, size: nat)
    requires 0 < minSize && Doubling(minSize, maxSize, sizes) && size <= maxSize
    ensures Smallest(sizes, size, FindPool(minSize, maxSize, size).value)
  {
    FindPoolBounds(minSize, maxSize, size);
    var idx, last := FindPool(minSize, maxSize, size).value, |sizes| - 1;
    if idx > last {
      Pow2Mono(last, idx - 1);
      MulMono(Pow2(last), Pow2(idx - 1), minSize);
    }
  }

  lemma {:induction false} Pow2Mono(a: nat, b: nat)
    requires a <= b
    ensures Pow2(a) <= Pow2(b)
    decreases b
  {
    if a == b {
    } else {
      Pow2Mono(a, b - 1);
    }
  }

  // ----- the pool -----

  /** A byte slice: its length may change, its capacity may not. */
  class Buffer {
    const capacity: nat
    var length: nat

    /** `makeSlicePointer` */
    constructor (size: nat)
      ensures capacity == size && length == size
    {
      capacity := size;
      length := size;
    }
  }

  class Pool {
    const minSize: nat
    const maxSize: nat
    const sizes: seq<nat>
    /** The free buffers of each bucket. */
    var pools: seq<seq<Buffer>>

    ghost predicate Shaped()
      reads this
    {
      0 < minSize && Doubling(minSize, maxSize, sizes) && |pools| == |sizes|
    }

    /** Every free buffer has exactly the size of its bucket. */
    ghost predicate Valid()
      reads this
    {
      && Shaped()
      && forall k, i :: 0 <= k < |pools| && 0 <= i < |pools[k]| ==> pools[k][i].capacity == sizes[k]
    }

    /** A capacity a buffer of this pool can have: a bucket's, or one above all of them. */
    predicate Fitting(capacity: nat) {
      capacity > maxSize || capacity in sizes
    }

    ghost function Free(): (r: set<Buffer>)
      reads this
    {
      set k, i | 0 <= k < |pools| && 0 <= i < |pools[k]| :: pools[k][i]
    }

    /** `New` */
    constructor (minSize: nat, maxSize: nat)
      requires 0 < minSize <= maxSize <= 0x4000_0000_0000_0000
      ensures Valid() && Free() == {} && this.minSize == minSize && this.maxSize == maxSize
    {
      this.minSize := minSize;
      this.maxSize := maxSize;
      var made := Sizes(minSize, maxSize);
      this.sizes := made;
      this.pools := seq(|made|, _ => []);
    }

    /** The free buffer that `Get` is handed: `choice` counts those of the bucket; none if it has to make one. */
    ghost function Chosen(size: nat, choice: Option<nat>): (r: Option<Buffer>)
      requires minSize > 0
      reads this
    {
      var idx := FindPool(minSize, maxSize, size);
      if idx.Some? && idx.value < |pools| && choice.Some? && choice.value < |pools[idx.value]| then
        Some(pools[idx.value][choice.value])
      else None
    }

    /**
     `Get`: a length within the capacity of the buffer handed out; `None` stands for the panic of the slice expression.
     */
    method Get(size: nat, choice: Option<nat>) returns (r: Option<Buffer>)
      requires Shaped()
      modifies `pools, Free()
      ensures Shaped() && (old(Valid()) ==> Valid())
      ensures r.None? <==> old(Chosen(size, choice)).Some? && old(Chosen(size, choice)).value.capacity < size
      ensures r.Some? ==> r.value.length == size <= r.value.capacity && (r.value in old(Free()) || fresh(r.value))
      ensures Free() <= old(Free())
      ensures old(Valid()) ==> r.Some? && Fitting(r.value.capacity)
      ensures old(Valid()) && size <= maxSize ==>
                && r.value.capacity in sizes
                && forall k :: 0 <= k < |sizes| && size <= sizes[k] ==> r.value.capacity <= sizes[k]
    {
      var found := FindPool(minSize, maxSize, size);
      if found.None? {
        var made := new Buffer(size);
        return Some(made);
      }
      FindPoolSmallest(minSize, maxSize, sizes, size);
      var idx := found.value;
      SmallestFits(minSize, maxSize, sizes, size, idx);
      hide Doubling, FindPool;
      var bucket := pools[idx];
      var b;
      if choice.Some? && choice.value < |bucket| {
        var i := choice.value;
        b := bucket[i];
        pools := pools[idx := bucket[..i] + bucket[i + 1..]];
      } else {
        b := new Buffer(sizes[idx]);
      }
      if size > b.capacity {
        return None;
      }
      b.length := size;
      return Some(b);
    }

    /** `Put`: a buffer of a fitting capacity goes back where it belongs; any other spoils the pool. */
    method Put(b: Buffer)
      requires Valid()
      modifies `pools, b
      ensures Shaped() && (Valid() <==> Fitting(b.capacity))
      ensures b.capacity > maxSize ==> pools == old(pools) && b.length == old(b.length)
      ensures b.capacity <= maxSize ==>
                && b.length == b.capacity && Free() == old(Free()) + {b}
                && var idx := FindPool(minSize, maxSize, b.capacity).value;
                && Smallest(sizes, b.capacity, idx) && pools[idx] == old(pools[idx]) + [b]
    {
      var found := FindPool(minSize, maxSize, b.capacity);
      if found.None? {
        return;
      }
      FindPoolSmallest(minSize, maxSize, sizes, b.capacity);
      var idx := found.value;
      SmallestMember(minSize, maxSize, sizes, b.capacity, idx);
      hide Doubling, FindPool;
      b.length := b.capacity;
      ghost var was := pools;
      pools := pools[idx := pools[idx] + [b]];
      assert pools[idx][|was[idx]|] == b;
      assert forall k, i :: 0 <= k < |was| && 0 <= i < |was[k]| ==> pools[k][i] == was[k][i];
    }
  }

  /** Taking a buffer, or putting back the `i`-th of those held. */
  datatype Op = Take(size: nat, choice: Option<nat>) | Return(i: nat)

  /** In a run where only buffers that were taken are put back, the pool stays valid. */
  method Run(pool: Pool, ops: seq<Op>) returns (held: seq<Buffer>)
    requires pool.Valid()
    modifies pool, pool.Free()
    ensures pool.Valid() && forall i :: 0 <= i < |held| ==> pool.Fitting(held[i].capacity)
  {
    held := [];
    ghost var start := pool.Free();
    for n := 0 to |ops|
      invariant pool.Valid()
      invariant forall i :: 0 <= i < |held| ==> pool.Fitting(held[i].capacity) && (held[i] in start || fresh(held[i]))
      invariant forall b :: b in pool.Free() ==> b in start || fresh(b)
    {
      match ops[n] {
        case Take(size, choice) =>
          var b := pool.Get(size, choice);
          held := held + [b.value];
        case Return(i) =>
          if i < |held| {
            pool.Put(held[i]);
            held := held[..i] + held[i + 1..];
          }
      }
    }
  }

  /**
   After a buffer of any foreign capacity is put, the bucket it went to can hand it out for a size beyond its capacity.
   */
  method ForeignBufferPanics(pool: Pool, b: Buffer) returns (r: Option<Buffer>)
    requires pool.Valid() && !pool.Fitting(b.capacity)
    modifies pool, pool.Free(), b
    ensures r.None?
  {
    pool.Put(b);
    ghost var foreign := b.capacity;
    var idx := FindPool(pool.minSize, pool.maxSize, b.capacity).value;
    var size, last := pool.sizes[idx], |pool.pools[idx]| - 1;
    SmallestMember(pool.minSize, pool.maxSize, pool.sizes, b.capacity, idx);
    OwnBucket(pool.minSize, pool.maxSize, pool.sizes, idx);
    assert foreign < size && pool.pools[idx][last] == b;
    r := pool.Get(size, Some(last));
  }

  /** The size of a bucket is looked up in that bucket. */
  lemma OwnBucket(minSize: nat, maxSize: nat, sizes: seq<nat>, idx: nat)
    requires 0 < minSize && Doubling(minSize, maxSize, sizes) && idx < |sizes|
    ensures sizes[idx] <= maxSize && FindPool(minSize, maxSize, sizes[idx]) == Some(idx)
  {
    var size := sizes[idx];
    SizesGrow(minSize, maxSize, sizes, idx, |sizes| - 1);
    FindPoolSmallest(minSize, maxSize, sizes, size);
    var found := FindPool(minSize, maxSize, size).value;
    if found < idx {
      SizesStrict(minSize, maxSize, sizes, found, idx);
    } else if found > idx {
      SizesGrow(minSize, maxSize, sizes, idx, found - 1);
    }
  }

  lemma SizesStrict(minSize: nat, maxSize: nat, sizes: seq<nat>, i: nat, j: nat)
    requires 0 < minSize && Doubling(minSize, maxSize, sizes) && i < j < |sizes|
    ensures sizes[i] < sizes[j]
  {
    Pow2Mono(i + 1, j);
    MulMono(Pow2(i + 1), Pow2(j), minSize);
    Doubled(minSize, i);
    Positive(minSize, i);
  }

  lemma Positive(m: nat, k: nat)
    requires m > 0
    ensures m * Pow2(k) > 0
  {
    Pow2Mono(0, k);
    MulMono(1, Pow2(k), m);
  }

  /** A size that some bucket has is the size of the smallest bucket that fits it. */
  lemma SmallestMember(minSize: nat, maxSize: nat, sizes: seq<nat>, size: nat, idx: nat)
    requires 0 < minSize && Doubling(minSize, maxSize, sizes) && size <= maxSize && Smallest(sizes, size, idx)
    ensures size in sizes <==> sizes[idx] == size
  {
    if size in sizes {
      var k :| 0 <= k < |sizes| && sizes[k] == size;
      if k < idx {
        SizesGrow(minSize, maxSize, sizes, k, idx - 1);
      } else {
        SizesGrow(minSize, maxSize, sizes, idx, k);
      }
    }
  }

  /** It is the smallest of all the sizes that fit. */
  lemma SmallestFits(minSize: nat, maxSize: nat, sizes: seq<nat>, size: nat, idx: nat)
    requires 0 < minSize && Doubling(minSize, maxSize, sizes) && Smallest(sizes, size, idx)
    ensures forall k :: 0 <= k < |sizes| && size <= sizes[k] ==> sizes[idx] <= sizes[k]
  {
    forall k | 0 <= k < |sizes| && size <= sizes[k]
      ensures sizes[idx] <= sizes[k]
    {
      if k < idx {
        SizesGrow(minSize, maxSize, sizes, k, idx - 1);
      } else {
        SizesGrow(minSize, maxSize, sizes, idx, k);
      }
    }
  }

  lemma SizesGrow(minSize: nat, maxSize: nat, sizes: seq<nat>, i: nat, j: nat)
    requires Doubling(minSize, maxSize, sizes) && i <= j < |sizes|
    ensures sizes[i] <= sizes[j]
  {
    Pow2Mono(i, j);
    MulMono(Pow2(i), Pow2(j), minSize);
  }
}
