/**
 The interval lists a MySQL 5.6 GTID set keeps for one server, and what they denote.
 Sequence numbers are Go `int64` values; the places where the source computes `end + 1`
 or `start - 1` go through `Wrap64`, so overflow is part of the model.
 */
module GtidIntervals {
  const MIN_INT64: int := -0x8000_0000_0000_0000
  const MAX_INT64: int := 0x7FFF_FFFF_FFFF_FFFF

  type int64 = x: int | MIN_INT64 <= x <= MAX_INT64

  /** Two's complement truncation to 64 bits. */
  function Wrap64(x: int): (r: int64)
    ensures x == MAX_INT64 + 1 ==> r == MIN_INT64
  {
    if MIN_INT64 <= x <= MAX_INT64 then x
    else
      var m := x % 0x1_0000_0000_0000_0000;
      if m <= MAX_INT64 then m else m - 0x1_0000_0000_0000_0000
  }

  /** A closed range of sequence numbers. */
  datatype Interval = Interval(start: int64, end: int64) {
    ghost predicate Holds(n: int) {
      start <= n <= end
    }

    /** `interval.contains` */
    predicate Contains(other: Interval) {
      start <= other.start && other.end <= end
    }

    predicate Valid() {
      1 <= start <= end
    }
  }

  /** Which list a sweep moves along next. */
  datatype Cursor = Receiver | Other

  function Max(x: int64, y: int64): (r: int64)
    ensures r >= x && r >= y && (r == x || r == y)
  {
    if x > y then x else y
  }

  function Min(x: int64, y: int64): (r: int64)
    ensures r <= x && r <= y && (r == x || r == y)
  {
    if x < y then x else y
  }

  /** The sequence numbers an interval list stands for. */
  ghost predicate Has(ivs: seq<Interval>, n: int) {
    exists k :: 0 <= k < |ivs| && ivs[k].Holds(n)
  }

  ghost predicate AllValid(ivs: seq<Interval>) {
    forall k :: 0 <= k < |ivs| ==> ivs[k].Valid()
  }

  /** What the text parser establishes: valid intervals sorted by start. They may overlap. */
  ghost predicate Ordered(ivs: seq<Interval>) {
    && (forall k :: 0 <= k < |ivs| ==> ivs[k].Valid())
    && (forall j, k :: 0 <= j < k < |ivs| ==> ivs[j].start <= ivs[k].start)
  }

  /** Valid intervals none of which begins before an earlier one ends: neighbours share one number at most. */
  predicate Successive(ivs: seq<Interval>) {
    && (forall k :: 0 <= k < |ivs| ==> ivs[k].Valid())
    && (forall j, k :: 0 <= j < k < |ivs| ==> ivs[j].end <= ivs[k].start)
  }

  /** Valid intervals in increasing order that do not overlap. They may touch. */
  ghost predicate Disjoint(ivs: seq<Interval>) {
    && (forall k :: 0 <= k < |ivs| ==> ivs[k].Valid())
    && (forall j, k :: 0 <= j < k < |ivs| ==> ivs[j].end < ivs[k].start)
  }

  /** Disjoint with at least one missing number between neighbours. */
  ghost predicate Canonical(ivs: seq<Interval>) {
    && (forall k :: 0 <= k < |ivs| ==> ivs[k].Valid())
    && (forall j, k :: 0 <= j < k < |ivs| ==> ivs[j].end + 1 < ivs[k].start)
  }

  lemma CanonicalIsDisjoint(ivs: seq<Interval>)
    requires Canonical(ivs)
    ensures Disjoint(ivs) && Ordered(ivs)
  {
    forall j, k | 0 <= j < k < |ivs|
      ensures ivs[j].start <= ivs[k].start
    {
      assert ivs[j].Valid();
    }
  }

  lemma DisjointIsOrdered(ivs: seq<Interval>)
    requires Disjoint(ivs)
    ensures Ordered(ivs)
  {
    forall j, k | 0 <= j < k < |ivs|
      ensures ivs[j].start <= ivs[k].start
    {
      assert ivs[j].Valid();
    }
  }

  lemma HasConcat(s: seq<Interval>, t: seq<Interval>)
    ensures forall n :: Has(s + t, n) <==> Has(s, n) || Has(t, n)
  {
    forall n
      ensures Has(s + t, n) <==> Has(s, n) || Has(t, n)
    {
      if Has(s, n) {
        var k :| 0 <= k < |s| && s[k].Holds(n);
        assert (s + t)[k].Holds(n);
      }
      if Has(t, n) {
        var k :| 0 <= k < |t| && t[k].Holds(n);
        assert (s + t)[|s| + k].Holds(n);
      }
    }
  }

  lemma HasSingle(iv: Interval)
    ensures forall n :: Has([iv], n) <==> iv.Holds(n)
  {
    forall n | iv.Holds(n)
      ensures Has([iv], n)
    {
      assert [iv][0].Holds(n);
    }
  }

  lemma HasSnoc(s: seq<Interval>, iv: Interval)
    ensures forall n :: Has(s + [iv], n) <==> Has(s, n) || iv.Holds(n)
  {
    HasConcat(s, [iv]);
    HasSingle(iv);
  }

  lemma HasCons(iv: Interval, s: seq<Interval>)
    ensures forall n :: Has([iv] + s, n) <==> iv.Holds(n) || Has(s, n)
  {
    HasConcat([iv], s);
    HasSingle(iv);
  }

  /** A canonical list is determined by the numbers it holds. */
  lemma {:induction false} CanonicalUnique(a: seq<Interval>, b: seq<Interval>)
    requires Canonical(a) && Canonical(b)
    requires forall n :: Has(a, n) <==> Has(b, n)
    ensures a == b
    decreases |a|
  {
    if |a| == 0 || |b| == 0 {
      if |a| > 0 {
        assert a[0].Holds(a[0].start);
        assert Has(a, a[0].start);
        assert false;
      }
      if |b| > 0 {
        assert b[0].Holds(b[0].start);
        assert Has(b, b[0].start);
        assert false;
      }
    } else {
      HeadStart(a, b);
      HeadStart(b, a);
      HeadEnd(a, b);
      HeadEnd(b, a);
      assert a == [a[0]] + a[1..] && b == [b[0]] + b[1..];
      HasCons(a[0], a[1..]);
      HasCons(b[0], b[1..]);
      forall n
        ensures Has(a[1..], n) <==> Has(b[1..], n)
      {
        assert Has(a, n) <==> Has(b, n);
        TailAbove(a, n);
        TailAbove(b, n);
      }
      CanonicalUnique(a[1..], b[1..]);
    }
  }

  lemma TailAbove(a: seq<Interval>, n: int)
    requires Canonical(a) && |a| > 0
    ensures Has(a[1..], n) ==> a[0].end + 1 < n
  {
    if Has(a[1..], n) {
      var k :| 0 <= k < |a[1..]| && a[1..][k].Holds(n);
      assert a[1..][k] == a[k + 1];
    }
  }

  lemma HeadStart(a: seq<Interval>, b: seq<Interval>)
    requires Canonical(a) && Canonical(b) && |a| > 0 && |b| > 0
    requires forall n :: Has(a, n) <==> Has(b, n)
    ensures b[0].start <= a[0].start
  {
    assert a[0].Holds(a[0].start);
    assert Has(b, a[0].start);
    var k :| 0 <= k < |b| && b[k].Holds(a[0].start);
    assert b[0].Valid();
  }

  lemma HeadEnd(a: seq<Interval>, b: seq<Interval>)
    requires Canonical(a) && Canonical(b) && |a| > 0 && |b| > 0
    requires forall n :: Has(a, n) <==> Has(b, n)
    requires a[0].start == b[0].start
    ensures a[0].end <= b[0].end
  {
    forall k | 0 <= k < |b|
      ensures !b[k].Holds(b[0].end + 1)
    {
    }
    assert !Has(a, b[0].end + 1);
    assert !a[0].Holds(b[0].end + 1);
  }
}
