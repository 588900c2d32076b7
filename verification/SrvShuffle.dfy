/** SRV records in the order of RFC 2782: by priority, and inside a priority drawn by weight. */
module SrvShuffle {
  import opened Bytes

  /** The parts of `net.SRV` the order depends on, and the rest as its target. */
  datatype Srv = Srv(target: string, priority: uint16, weight: uint16)

  // ----- weights -----

  function Weights(s: seq<Srv>): (r: nat) {
    if s == [] then 0 else s[0].weight + Weights(s[1..])
  }

  lemma {:induction false} WeightsConcat(s: seq<Srv>, t: seq<Srv>)
    ensures Weights(s + t) == Weights(s) + Weights(t)
  {
    if s == [] {
      assert s + t == t;
    } else {
      WeightsConcat(s[1..], t);
      assert (s + t)[1..] == s[1..] + t;
    }
  }

  lemma {:induction false} NoWeight(s: seq<Srv>)
    requires Weights(s) == 0
    ensures forall i :: 0 <= i < |s| ==> s[i].weight == 0
  {
    if s == [] {
    } else {
      NoWeight(s[1..]);
      assert forall i :: 1 <= i < |s| ==> s[i] == s[1..][i - 1];
    }
  }

  /** The draw `n` selects record `i`: it falls into the stretch of the running sum that the record's weight takes. */
  ghost predicate Selects(s: seq<Srv>, n: nat, i: nat) {
    i < |s| && Weights(s[..i]) <= n < Weights(s[..i]) + s[i].weight
  }

  /** Record `i` moved to the front, the ones before it shifted by one. */
  function Fronted(s: seq<Srv>, i: nat): (r: seq<Srv>)
    requires i < |s|
    ensures |r| == |s| && r[0] == s[i]
  {
    ([s[i]] + s[..i]) + s[i + 1..]
  }

  /** A sequence that has every record where `Fronted` puts it. */
  lemma FrontedIs(s: seq<Srv>, i: nat, t: seq<Srv>)
    requires i < |s| && |t| == |s|
    requires t[0] == s[i]
    requires forall k :: 0 < k <= i ==> t[k] == s[k - 1]
    requires forall k :: i < k < |t| ==> t[k] == s[k]
    ensures t == Fronted(s, i)
  {
    var f := Fronted(s, i);
    forall k | 0 <= k < |f|
      ensures t[k] == f[k]
    {
      if k == 0 {
        assert f[k] == s[i];
      } else if k <= i {
        assert f[k] == s[..i][k - 1] == s[k - 1];
      } else {
        assert f[k] == s[i + 1..][k - i - 1] == s[k];
      }
    }
  }

  /** The same for a stretch of an array, element by element. */
  lemma MovedIs(was: seq<Srv>, lo: nat, i: nat, hi: nat, now: seq<Srv>)
    requires lo <= i < hi <= |was| == |now|
    requires now[lo] == was[i]
    requires forall k :: lo < k <= i ==> now[k] == was[k - 1]
    requires forall k :: i < k < hi ==> now[k] == was[k]
    ensures now[lo..hi] == Fronted(was[lo..hi], i - lo)
  {
    hide Fronted;
    var s, t := was[lo..hi], now[lo..hi];
    forall k | 0 < k <= i - lo
      ensures t[k] == s[k - 1]
    {
      assert now[lo + k] == was[lo + k - 1];
    }
    forall k | i - lo < k < |t|
      ensures t[k] == s[k]
    {
      assert now[lo + k] == was[lo + k];
    }
    FrontedIs(s, i - lo, t);
  }

  lemma Swapped(a: seq<Srv>, x: seq<Srv>, c: seq<Srv>)
    ensures multiset(x + a + c) == multiset(a + x + c)
    ensures Weights(a + x + c) == Weights(x) + Weights(a + c)
  {
    WeightsConcat(a + x, c);
    WeightsConcat(a, x);
    WeightsConcat(a, c);
  }

  lemma FrontedTail(s: seq<Srv>, i: nat)
    requires i < |s|
    ensures Fronted(s, i)[1..] == s[..i] + s[i + 1..]
  {
  }

  /** Moving a record to the front keeps all the records, and leaves the other weights behind it. */
  lemma FrontedSame(s: seq<Srv>, i: nat)
    requires i < |s|
    ensures multiset(Fronted(s, i)) == multiset(s)
    ensures Weights(Fronted(s, i)[1..]) == Weights(s) - s[i].weight
  {
    Around(s, i);
    FrontedTail(s, i);
    Swapped(s[..i], [s[i]], s[i + 1..]);
    assert Weights([s[i]]) == s[i].weight;
  }

  /** No record without weight comes before one with weight. */
  ghost predicate WeightedFirst(s: seq<Srv>) {
    forall i, j :: 0 <= i < j < |s| && s[i].weight == 0 ==> s[j].weight == 0
  }

  // ----- one priority -----

  /** The summing loop of `shuffleByWeight`. */
  method Sum(a: array<Srv>, lo: nat, hi: nat) returns (sum: nat)
    requires lo <= hi <= a.Length
    ensures sum == Weights(a[lo..hi])
  {
    sum := 0;
    for i := lo to hi
      invariant sum == Weights(a[lo..i])
    {
      assert a[lo..i + 1] == a[lo..i] + [a[i]];
      WeightsConcat(a[lo..i], [a[i]]);
      sum := sum + a[i].weight;
    }
  }

  /** The inner loop of `shuffleByWeight`: the record that the draw `n` selects. */
  method Select(a: array<Srv>, lo: nat, hi: nat, n: nat) returns (i: nat)
    requires lo <= hi <= a.Length && n < Weights(a[lo..hi])
    ensures lo <= i < hi && Selects(a[lo..hi], n, i - lo)
  {
    var s := 0;
    i := lo;
    ghost var all := a[lo..hi];
    WholePrefix(all);
    while true
      invariant lo <= i <= hi && s == Weights(all[..i - lo]) && s <= n
      decreases hi - i
    {
      LongerPrefix(all, i - lo);
      WeightsConcat(all[..i - lo], [all[i - lo]]);
      s := s + a[i].weight;
      if s > n {
        return;
      }
      i := i + 1;
    }
  }

  /** `copy(addrs[1:i+1], addrs[0:i])` and the selected record in front. */
  method MoveToFront(a: array<Srv>, lo: nat, i: nat, hi: nat)
    requires lo <= i < hi <= a.Length
    modifies a
    ensures a[lo..hi] == Fronted(old(a[lo..hi]), i - lo)
    ensures forall k :: 0 <= k < a.Length && !(lo <= k < hi) ==> a[k] == old(a[k])
  {
    hide Fronted;
    ghost var was := a[..];
    var t := a[i];
    forall k | lo < k <= i {
      a[k] := a[k - 1];
    }
    a[lo] := t;
    MovedIs(was, lo, i, hi, a[..]);
  }

  /** Records with weight, then records that are all without weight or at most one. */
  ghost predicate Drawn(front: seq<Srv>, rest: seq<Srv>) {
    && (forall k :: 0 <= k < |front| ==> front[k].weight > 0)
    && (|rest| <= 1 || Weights(rest) == 0)
  }

  lemma DrawnOrder(front: seq<Srv>, rest: seq<Srv>)
    requires Drawn(front, rest)
    ensures WeightedFirst(front + rest)
  {
    if Weights(rest) == 0 {
      NoWeight(rest);
    }
    var s := front + rest;
    forall i, j | 0 <= i < j < |s| && s[i].weight == 0
      ensures s[j].weight == 0
    {
      assert i >= |front| && s[j] == rest[j - |front|];
    }
  }

  /** One draw of `shuffleByWeight`: a record with weight comes to the front, and the sum is that of the others. */
  method DrawOne(a: array<Srv>, start: nat, hi: nat, sum: nat) returns (left: nat)
    requires start < hi <= a.Length && sum == Weights(a[start..hi]) > 0
    modifies a
    ensures a[start].weight > 0 && left == Weights(a[start + 1..hi])
    ensures multiset(a[start..hi]) == multiset(old(a[start..hi]))
    ensures forall k :: 0 <= k < a.Length && !(start <= k < hi) ==> a[k] == old(a[k])
  {
    ghost var was := a[start..hi];
    var n :| 0 <= n < sum;
    var i := Select(a, start, hi, n);
    assert was[i - start] == a[i];
    FrontedSame(was, i - start);
    MoveToFront(a, start, i, hi);
    Slices(a[..], start, hi);
    assert a[start] == a[start..hi][0];
    hide Weights, Fronted;
    left := sum - a[start].weight;
  }

  lemma Slices(s: seq<Srv>, start: nat, hi: nat)
    requires start < hi <= |s|
    ensures s[start..hi][1..] == s[start + 1..hi]
  {
  }

  lemma Joined(s: seq<Srv>, lo: nat, start: nat, hi: nat)
    requires lo <= start <= hi <= |s|
    ensures s[lo..hi] == s[lo..start] + s[start..hi]
  {
  }

  /** Rearranging a part rearranges the whole. */
  lemma Rearranged(was: seq<Srv>, now: seq<Srv>, lo: nat, start: nat, hi: nat)
    requires |was| == |now| && lo <= start <= hi <= |was|
    requires forall k :: 0 <= k < start ==> now[k] == was[k]
    requires multiset(now[start..hi]) == multiset(was[start..hi])
    ensures multiset(now[lo..hi]) == multiset(was[lo..hi])
  {
    Joined(was, lo, start, hi);
    Joined(now, lo, start, hi);
    assert now[lo..start] == was[lo..start];
  }

  /**
   `shuffleByWeight` on `a[lo..hi]`, whatever numbers are drawn: the running sum is always that of the records left.
   */
  method ShuffleByWeight(a: array<Srv>, lo: nat, hi: nat)
    requires lo <= hi <= a.Length
    modifies a
    ensures multiset(a[lo..hi]) == multiset(old(a[lo..hi])) && WeightedFirst(a[lo..hi])
    ensures forall k :: 0 <= k < a.Length && !(lo <= k < hi) ==> a[k] == old(a[k])
  {
    hide Weights, WeightedFirst;
    var sum := Sum(a, lo, hi);
    var start := lo;
    while sum > 0 && hi - start > 1
      invariant lo <= start <= hi && sum == Weights(a[start..hi])
      invariant forall k :: lo <= k < start ==> a[k].weight > 0
      invariant multiset(a[lo..hi]) == multiset(old(a[lo..hi]))
      invariant forall k :: 0 <= k < a.Length && !(lo <= k < hi) ==> a[k] == old(a[k])
      decreases hi - start
    {
      ghost var was := a[..];
      sum := DrawOne(a, start, hi, sum);
      Rearranged(was, a[..], lo, start, hi);
      start := start + 1;
    }
    ShuffleDone(a[..], lo, start, hi);
  }

  lemma ShuffleDone(s: seq<Srv>, lo: nat, start: nat, hi: nat)
    requires lo <= start <= hi <= |s| && forall k :: lo <= k < start ==> s[k].weight > 0
    requires hi - start <= 1 || Weights(s[start..hi]) == 0
    ensures WeightedFirst(s[lo..hi])
  {
    DrawnOrder(s[lo..start], s[start..hi]);
    Joined(s, lo, start, hi);
  }

  // ----- all priorities -----

  /** `Less`: by priority, then by weight. */
  predicate Less(x: Srv, y: Srv) {
    x.priority < y.priority || (x.priority == y.priority && x.weight < y.weight)
  }

  predicate Sorted(s: seq<Srv>) {
    forall i, j :: 0 <= i < j < |s| ==> !Less(s[j], s[i])
  }

  /** By priority, and records with weight before records without inside each priority. */
  ghost predicate Rfc2782(s: seq<Srv>) {
    && (forall i, j :: 0 <= i < j < |s| ==> s[i].priority <= s[j].priority)
    && (forall i, j :: 0 <= i < j < |s| && s[i].priority == s[j].priority && s[i].weight == 0 ==> s[j].weight == 0)
  }

  ghost predicate OnePriority(s: seq<Srv>, p: uint16) {
    forall k :: 0 <= k < |s| ==> s[k].priority == p
  }

  lemma PermutedPriority(s: seq<Srv>, t: seq<Srv>, p: uint16)
    requires multiset(s) == multiset(t) && OnePriority(s, p)
    ensures OnePriority(t, p)
  {
    forall k | 0 <= k < |t|
      ensures t[k].priority == p
    {
      assert t[k] in multiset(t);
      assert t[k] in s;
    }
  }

  /** A part in order, then one priority above all of it, in order. */
  lemma OrderedLonger(s: seq<Srv>, t: seq<Srv>, p: uint16)
    requires Rfc2782(s) && OnePriority(t, p) && WeightedFirst(t)
    requires forall k :: 0 <= k < |s| ==> s[k].priority < p
    ensures Rfc2782(s + t)
  {
  }

  /** What `sortRfc2782` has done when it stands at `i`: everything before is in order, the rest is still sorted. */
  ghost predicate Progress(now: seq<Srv>, sorted: seq<Srv>, i: nat) {
    && i <= |now| == |sorted| && multiset(now) == multiset(sorted) && now[i..] == sorted[i..]
    && Rfc2782(now[..i])
    && (i < |now| ==> forall k :: 0 <= k < i ==> now[k].priority < sorted[i].priority)
  }

  /** Shuffling the records of one priority, up to where the next begins, is progress. */
  lemma ProgressMore(was: seq<Srv>, now: seq<Srv>, sorted: seq<Srv>, i: nat, j: nat)
    requires Sorted(sorted) && i < j <= |sorted| && Progress(was, sorted, i) && |now| == |was|
    requires forall k :: 0 <= k < |was| && !(i <= k < j) ==> now[k] == was[k]
    requires multiset(now[i..j]) == multiset(was[i..j]) && WeightedFirst(now[i..j])
    requires OnePriority(sorted[i..j], sorted[i].priority)
    requires j < |sorted| ==> sorted[j].priority != sorted[i].priority
    ensures Progress(now, sorted, j)
  {
    var p := sorted[i].priority;
    Tails(was, now, sorted, i, j);
    PermutedPriority(was[i..j], now[i..j], p);
    OrderedLonger(now[..i], now[i..j], p);
    ProgressSame(was, now, i, j);
    hide WeightedFirst, Rfc2782;
    if j < |sorted| {
      assert !Less(sorted[j], sorted[i]);
      forall k | 0 <= k < j
        ensures now[k].priority < sorted[j].priority
      {
        assert k >= i ==> now[k] == now[i..j][k - i];
      }
    }
  }

  lemma Tails(was: seq<Srv>, now: seq<Srv>, sorted: seq<Srv>, i: nat, j: nat)
    requires i < j <= |sorted| == |was| == |now| && was[i..] == sorted[i..]
    requires forall k :: 0 <= k < |was| && !(i <= k < j) ==> now[k] == was[k]
    ensures was[i..j] == sorted[i..j] && now[..i] == was[..i] && now[..j] == now[..i] + now[i..j]
    ensures now[j..] == sorted[j..]
  {
    assert was[i..j] == was[i..][..j - i] && sorted[i..j] == sorted[i..][..j - i];
    assert was[j..] == was[i..][j - i..] && sorted[j..] == sorted[i..][j - i..];
  }

  lemma ProgressSame(was: seq<Srv>, now: seq<Srv>, i: nat, j: nat)
    requires i < j <= |was| == |now|
    requires forall k :: 0 <= k < |was| && !(i <= k < j) ==> now[k] == was[k]
    requires multiset(now[i..j]) == multiset(was[i..j])
    ensures multiset(now) == multiset(was)
  {
    Rearranged(was, now, 0, i, j);
    Joined(now, 0, j, |now|);
    Joined(was, 0, j, |was|);
    assert now[j..|now|] == was[j..|was|];
    assert now == now[0..|now|] && was == was[0..|was|];
  }

  /** `sortRfc2782`; `sorted` is what `sort.Sort` makes of the records. */
  method SortRfc2782(a: array<Srv>, sorted: seq<Srv>)
    requires multiset(sorted) == multiset(a[..]) && Sorted(sorted)
    modifies a
    ensures multiset(a[..]) == multiset(old(a[..])) && Rfc2782(a[..])
  {
    SameLength(sorted, a[..]);
    forall k | 0 <= k < a.Length {
      a[k] := sorted[k];
    }
    assert a[..] == sorted;
    hide WeightedFirst;
    var i, j := 0, 1;
    while j < a.Length
      invariant a.Length > 0 ==> i < j <= a.Length && OnePriority(sorted[i..j], sorted[i].priority)
      invariant i <= a.Length && Progress(a[..], sorted, i)
    {
      ghost var was := a[..];
      SameTail(was, sorted, i, j);
      if a[i].priority != a[j].priority {
        ShuffleByWeight(a, i, j);
        ProgressMore(was, a[..], sorted, i, j);
        i := j;
      }
      j := j + 1;
    }
    ghost var was := a[..];
    ShuffleByWeight(a, i, a.Length);
    if a.Length > 0 {
      ProgressMore(was, a[..], sorted, i, a.Length);
    }
    WholePrefix(a[..]);
  }

  lemma SameLength(s: seq<Srv>, t: seq<Srv>)
    requires multiset(s) == multiset(t)
    ensures |s| == |t|
  {
    assert |multiset(s)| == |s| && |multiset(t)| == |t|;
  }

  lemma SameTail(s: seq<Srv>, t: seq<Srv>, i: nat, j: nat)
    requires i < j < |s| == |t| && s[i..] == t[i..]
    ensures s[i] == t[i] && s[j] == t[j] && t[i..j + 1] == t[i..j] + [t[j]]
  {
    assert s[i] == s[i..][0] && t[i] == t[i..][0];
    assert s[j] == s[i..][j - i] && t[j] == t[i..][j - i];
  }
}
