/** The two-cursor sweep of `Difference` over the interval lists of one server. */
module GtidDifference {
  import opened Options
  import opened GtidIntervals

  /** The numbers of `a` that `b` does not hold. */
  ghost predicate HasMinus(a: seq<Interval>, b: seq<Interval>, n: int) {
    Has(a, n) && !Has(b, n)
  }

  /** The largest end among the first `k` intervals, 0 if there are none. */
  ghost function Reach(a: seq<Interval>, k: nat): (r: int)
    requires k <= |a|
    ensures 0 <= r && forall m :: 0 <= m < k ==> a[m].end <= r
    ensures r == 0 || exists m :: 0 <= m < k && a[m].end == r
  {
    if k == 0 then 0
    else
      var before := Reach(a, k - 1);
      if a[k - 1].end > before then a[k - 1].end else before
  }

  /** `b[l]` and everything before it end before one of the first `k` intervals of `a` does. */
  ghost predicate Passed(a: seq<Interval>, b: seq<Interval>, k: nat, l: nat)
    requires k <= |a| && l < |b|
  {
    forall q :: 0 <= q <= l ==> b[q].end < Reach(a, k)
  }

  /** `n` is in `a[k]`, and every interval of `b` that holds it is passed when the sweep takes `a[k]`. */
  ghost predicate Kept(a: seq<Interval>, b: seq<Interval>, k: nat, n: int)
    requires k < |a|
  {
    a[k].Holds(n) && forall l :: 0 <= l < |b| && b[l].Holds(n) ==> Passed(a, b, k, l)
  }

  /** One of the first `i` intervals of `a` keeps `n`. */
  ghost predicate Survives(a: seq<Interval>, b: seq<Interval>, i: nat, n: int)
    requires i <= |a|
  {
    exists k :: 0 <= k < i && Kept(a, b, k, n)
  }

  /** Successive, disjoint and canonical lists are those whose intervals are 0, 1 and 2 apart. */
  ghost predicate Apart(ivs: seq<Interval>, gap: nat) {
    && AllValid(ivs)
    && (forall j, k :: 0 <= j < k < |ivs| ==> ivs[j].end + gap <= ivs[k].start)
  }

  /** However far apart the intervals of `a` are, those of `r` are too. */
  ghost predicate KeepsShape(a: seq<Interval>, r: seq<Interval>) {
    forall gap: nat :: gap <= 2 && Apart(a, gap) ==> Apart(r, gap)
  }

  lemma ShapeKept(a: seq<Interval>, r: seq<Interval>)
    requires KeepsShape(a, r)
    ensures Successive(a) ==> Successive(r)
    ensures Disjoint(a) ==> Disjoint(r)
    ensures Canonical(a) ==> Canonical(r)
  {
    assert Successive(a) ==> Apart(a, 0);
    assert Disjoint(a) ==> Apart(a, 1);
    assert Canonical(a) ==> Apart(a, 2);
  }

  /** `b[p]` is the first interval of `b` that ends no earlier than the first `i` intervals of `a`. */
  ghost predicate AtCursor(a: seq<Interval>, b: seq<Interval>, i: nat, p: nat) {
    && i <= |a| && p < |b| && Reach(a, i) <= b[p].end
    && forall l :: 0 <= l < p ==> b[l].end < Reach(a, i)
  }

  /**
   What the loop of `Difference` knows while it works on `diff`'s last interval, what is left of `a[i - 1]`, having
   begun it at `b[p]` and come to `b[j - 1]`: everything before the last interval is final, and the last one still has
   to lose `b[j - 1..]`.
   */
  ghost predicate SubtractInv(a: seq<Interval>, b: seq<Interval>, i: nat, p: nat, j: nat, diff: seq<Interval>)
  {
    && 1 <= i <= |a| && p < j <= |b| && 1 <= |diff|
    && AtCursor(a, b, i - 1, p)
    && var front, last := diff[..|diff| - 1], diff[|diff| - 1];
    && AllValid(diff) && KeepsShape(a, diff) && last.end == a[i - 1].end
    && (forall k :: 0 <= k < |diff| ==> diff[k].end <= Reach(a, i))
    && (forall l :: p <= l < j - 1 ==> b[l].end < last.start)
    && (forall n :: Survives(a, b, i, n) <==> Has(front, n) || (last.Holds(n) && !Has(b[j - 1..], n)))
  }

  /** `diff` is final for the first `i` intervals of `a`, and the cursor stands at `b[j - 1]`. */
  ghost predicate SubtractFinal(a: seq<Interval>, b: seq<Interval>, i: nat, j: nat, diff: seq<Interval>)
  {
    && 1 <= i <= |a| && 1 <= j
    && AtCursor(a, b, i, j - 1)
    && AllValid(diff) && KeepsShape(a, diff)
    && (forall k :: 0 <= k < |diff| ==> diff[k].end <= Reach(a, i))
    && (forall n :: Survives(a, b, i, n) <==> Has(diff, n))
  }

  /** The sweep takes from `a[k]` what lies from its cursor on. */
  lemma KeptFrom(a: seq<Interval>, b: seq<Interval>, k: nat, p: nat, n: int)
    requires k < |a| && AtCursor(a, b, k, p)
    ensures Kept(a, b, k, n) <==> a[k].Holds(n) && !Has(b[p..], n)
  {
    if Kept(a, b, k, n) {
      forall q | 0 <= q < |b[p..]|
        ensures !b[p..][q].Holds(n)
      {
        assert b[p..][q] == b[p + q];
        assert !Passed(a, b, k, p + q);
      }
    }
    if a[k].Holds(n) && !Has(b[p..], n) {
      forall l | p <= l < |b|
        ensures !b[l].Holds(n)
      {
        assert b[p..][l - p] == b[l];
      }
    }
  }

  lemma SurvivesNext(a: seq<Interval>, b: seq<Interval>, i: nat, p: nat)
    requires i < |a| && AtCursor(a, b, i, p)
    ensures forall n :: Survives(a, b, i + 1, n) <==> Survives(a, b, i, n) || (a[i].Holds(n) && !Has(b[p..], n))
  {
    forall n
      ensures Survives(a, b, i + 1, n) <==> Survives(a, b, i, n) || (a[i].Holds(n) && !Has(b[p..], n))
    {
      KeptFrom(a, b, i, p, n);
    }
  }

  lemma SubtractStart(a: seq<Interval>, b: seq<Interval>)
    requires AllValid(a) && Ordered(b) && a != [] && b != []
    ensures SubtractInv(a, b, 1, 0, 1, [a[0]])
  {
    SurvivesNext(a, b, 0, 0);
    assert b[0..] == b && [a[0]][..0] == [];
  }

  /** `b[j - 1]` ends no earlier than the last interval: the cursor stays for the next one. */
  lemma CursorStays(a: seq<Interval>, b: seq<Interval>, i: nat, p: nat, j: nat, diff: seq<Interval>)
    requires SubtractInv(a, b, i, p, j, diff) && diff[|diff| - 1].end <= b[j - 1].end
    ensures AtCursor(a, b, i, j - 1)
  {
    assert diff[|diff| - 1].Valid();
  }

  /** The last interval lies before all of `b[j - 1..]`. */
  lemma SubtractBefore(a: seq<Interval>, b: seq<Interval>, i: nat, p: nat, j: nat, diff: seq<Interval>)
    requires AllValid(a) && Ordered(b) && SubtractInv(a, b, i, p, j, diff)
    requires diff[|diff| - 1].end < b[j - 1].start
    ensures SubtractFinal(a, b, i, j, diff)
  {
    CursorStays(a, b, i, p, j, diff);
    var last := diff[|diff| - 1];
    assert diff == diff[..|diff| - 1] + [last];
    HasSnoc(diff[..|diff| - 1], last);
    forall n | last.Holds(n)
      ensures !Has(b[j - 1..], n)
    {
      AboveOrdered(b, j - 1, n);
    }
  }

  lemma AboveOrdered(b: seq<Interval>, j: int, n: int)
    requires Ordered(b) && 0 <= j < |b| && n < b[j].start
    ensures !Has(b[j..], n)
  {
    forall k | 0 <= k < |b[j..]|
      ensures !b[j..][k].Holds(n)
    {
      assert b[j..][k] == b[j + k];
    }
  }

  /** The last interval is swallowed whole by `b[j - 1]`. */
  lemma SubtractCovered(a: seq<Interval>, b: seq<Interval>, i: nat, p: nat, j: nat, diff: seq<Interval>)
    requires AllValid(a) && Ordered(b) && SubtractInv(a, b, i, p, j, diff)
    requires b[j - 1].Contains(diff[|diff| - 1])
    ensures SubtractFinal(a, b, i, j, diff[..|diff| - 1])
  {
    CursorStays(a, b, i, p, j, diff);
    var last := diff[|diff| - 1];
    forall n | last.Holds(n)
      ensures Has(b[j - 1..], n)
    {
      assert b[j - 1..][0].Holds(n);
    }
  }

  /** Only the part of the last interval before `b[j - 1]` survives. */
  lemma SubtractHead(a: seq<Interval>, b: seq<Interval>, i: nat, p: nat, j: nat, diff: seq<Interval>)
    requires AllValid(a) && Ordered(b) && SubtractInv(a, b, i, p, j, diff)
    requires diff[|diff| - 1].start < b[j - 1].start <= diff[|diff| - 1].end <= b[j - 1].end
    ensures SubtractFinal(a, b, i, j, diff[|diff| - 1 := diff[|diff| - 1].(end := b[j - 1].start - 1)])
  {
    CursorStays(a, b, i, p, j, diff);
    var o, last := b[j - 1], diff[|diff| - 1];
    var cut := last.(end := o.start - 1);
    var diff' := diff[|diff| - 1 := cut];
    assert diff' == diff[..|diff| - 1] + [cut];
    HasSnoc(diff[..|diff| - 1], cut);
    forall n | last.Holds(n)
      ensures Has(b[j - 1..], n) <==> !cut.Holds(n)
    {
      if n < o.start {
        AboveOrdered(b, j - 1, n);
      } else {
        assert b[j - 1..][0].Holds(n);
      }
    }
  }

  /** Only the part of the last interval after `b[j - 1]` survives `b[j - 1]`. */
  lemma SubtractTail(a: seq<Interval>, b: seq<Interval>, i: nat, p: nat, j: nat, diff: seq<Interval>)
    requires AllValid(a) && Ordered(b) && SubtractInv(a, b, i, p, j, diff)
    requires b[j - 1].start <= diff[|diff| - 1].start <= b[j - 1].end < diff[|diff| - 1].end
    ensures SubtractInv(a, b, i, p, j, diff[|diff| - 1 := diff[|diff| - 1].(start := b[j - 1].end + 1)])
  {
    var o, last := b[j - 1], diff[|diff| - 1];
    var cut := last.(start := o.end + 1);
    var diff' := diff[|diff| - 1 := cut];
    assert diff'[..|diff'| - 1] == diff[..|diff| - 1];
    forall n | last.Holds(n) && !cut.Holds(n)
      ensures Has(b[j - 1..], n)
    {
      assert b[j - 1..][0].Holds(n);
    }
  }

  /** `b[j - 1]` cuts the last interval in two. */
  lemma SubtractSplit(a: seq<Interval>, b: seq<Interval>, i: nat, p: nat, j: nat, diff: seq<Interval>)
    requires AllValid(a) && Ordered(b) && SubtractInv(a, b, i, p, j, diff)
    requires diff[|diff| - 1].start < b[j - 1].start && b[j - 1].end < diff[|diff| - 1].end
    ensures SubtractInv(a, b, i, p, j, diff[|diff| - 1 := diff[|diff| - 1].(end := b[j - 1].start - 1)]
                                       + [Interval(b[j - 1].end + 1, diff[|diff| - 1].end)])
  {
    var o, last := b[j - 1], diff[|diff| - 1];
    var left, right := last.(end := o.start - 1), Interval(o.end + 1, last.end);
    var diff' := diff[|diff| - 1 := left] + [right];
    assert diff'[..|diff'| - 1] == diff[..|diff| - 1] + [left];
    HasSnoc(diff[..|diff| - 1], left);
    forall n | last.Holds(n)
      ensures !Has(b[j - 1..], n) <==> left.Holds(n) || (right.Holds(n) && !Has(b[j - 1..], n))
    {
      if n < o.start {
        AboveOrdered(b, j - 1, n);
      } else if n <= o.end {
        assert b[j - 1..][0].Holds(n);
      }
    }
  }

  lemma ApartReach(a: seq<Interval>, i: nat, gap: nat)
    requires Apart(a, gap) && 1 <= i <= |a|
    ensures Reach(a, i) == a[i - 1].end
  {
    assert a[i - 1].Valid();
  }

  /** Taking the next interval of `a`. */
  lemma SubtractAdvance(a: seq<Interval>, b: seq<Interval>, i: nat, j: nat, diff: seq<Interval>)
    requires AllValid(a) && Ordered(b) && SubtractFinal(a, b, i, j, diff) && i < |a|
    ensures SubtractInv(a, b, i + 1, j - 1, j, diff + [a[i]])
  {
    var diff' := diff + [a[i]];
    assert diff'[..|diff'| - 1] == diff;
    SurvivesNext(a, b, i, j - 1);
    AppendShape(a, i, diff);
  }

  lemma AppendShape(a: seq<Interval>, i: nat, diff: seq<Interval>)
    requires AllValid(a) && 1 <= i < |a| && KeepsShape(a, diff)
    requires forall k :: 0 <= k < |diff| ==> diff[k].end <= Reach(a, i)
    ensures KeepsShape(a, diff + [a[i]])
  {
    forall gap: nat | gap <= 2 && Apart(a, gap)
      ensures Apart(diff + [a[i]], gap)
    {
      ApartReach(a, i, gap);
    }
  }

  /** Taking the next interval of `b` once the current one is past. */
  lemma SubtractAdvanceOther(a: seq<Interval>, b: seq<Interval>, i: nat, p: nat, j: nat, diff: seq<Interval>)
    requires AllValid(a) && Ordered(b) && SubtractInv(a, b, i, p, j, diff) && j < |b|
    requires b[j - 1].end < diff[|diff| - 1].start
    ensures SubtractInv(a, b, i, p, j + 1, diff)
  {
    assert b[j - 1..] == [b[j - 1]] + b[j..];
    HasCons(b[j - 1], b[j..]);
  }

  /** `b` is used up: what is left of `a` is kept as it is. */
  lemma SubtractExhausted(a: seq<Interval>, b: seq<Interval>, i: nat, p: nat, j: nat, diff: seq<Interval>)
    requires AllValid(a) && Ordered(b) && SubtractInv(a, b, i, p, j, diff) && j == |b|
    requires b[j - 1].end < diff[|diff| - 1].start
    ensures Swept(a, b, diff + a[i..])
  {
    var last := diff[|diff| - 1];
    assert last.Valid() && last.end <= Reach(a, i);
    forall l | 0 <= l < |b|
      ensures b[l].end < Reach(a, i)
    {
      assert l < p ==> b[l].end < Reach(a, i - 1);
    }
    RestKept(a, b, i);
    assert b[j - 1..] == [b[j - 1]];
    HasSingle(b[j - 1]);
    assert diff == diff[..|diff| - 1] + [last];
    HasSnoc(diff[..|diff| - 1], last);
    HasConcat(diff, a[i..]);
    AppendRest(a, i, diff);
  }

  /** With all of `b` passed, every later interval of `a` is kept whole. */
  lemma RestKept(a: seq<Interval>, b: seq<Interval>, i: nat)
    requires i <= |a| && forall l :: 0 <= l < |b| ==> b[l].end < Reach(a, i)
    ensures forall n :: Survives(a, b, |a|, n) <==> Survives(a, b, i, n) || Has(a[i..], n)
  {
    forall n
      ensures Survives(a, b, |a|, n) <==> Survives(a, b, i, n) || Has(a[i..], n)
    {
      if Survives(a, b, |a|, n) && !Survives(a, b, i, n) {
        var k :| 0 <= k < |a| && Kept(a, b, k, n);
        assert a[i..][k - i] == a[k];
      }
      if Has(a[i..], n) {
        var q :| 0 <= q < |a[i..]| && a[i..][q].Holds(n);
        assert a[i..][q] == a[i + q];
        assert Reach(a, i) <= Reach(a, i + q);
        assert Kept(a, b, i + q, n);
      }
    }
  }

  lemma AppendRest(a: seq<Interval>, i: nat, diff: seq<Interval>)
    requires AllValid(a) && AllValid(diff) && 1 <= i <= |a| && KeepsShape(a, diff)
    requires forall k :: 0 <= k < |diff| ==> diff[k].end <= Reach(a, i)
    ensures AllValid(diff + a[i..]) && KeepsShape(a, diff + a[i..])
  {
    forall gap: nat | gap <= 2 && Apart(a, gap)
      ensures Apart(diff + a[i..], gap)
    {
      ApartReach(a, i, gap);
    }
  }

  /** `a` is used up. */
  lemma SubtractComplete(a: seq<Interval>, b: seq<Interval>, i: nat, j: nat, diff: seq<Interval>)
    requires SubtractFinal(a, b, i, j, diff) && i == |a|
    ensures Swept(a, b, diff + a[i..])
  {
    assert diff + a[i..] == diff;
  }

  /** The whole answer: `r` holds exactly the numbers that survive, as far apart as those of `a`. */
  ghost predicate Swept(a: seq<Interval>, b: seq<Interval>, r: seq<Interval>) {
    && AllValid(r) && KeepsShape(a, r)
    && (forall n :: Has(r, n) <==> Survives(a, b, |a|, n))
  }

  /** The overlap cases of `Difference`: what they leave of `diff`, and which cursor they advance. */
  function Carve(diff: seq<Interval>, o: Interval): (r: (seq<Interval>, Cursor))
    requires |diff| > 0 && diff[|diff| - 1].Valid() && o.Valid()
  {
    var last := |diff| - 1;
    var iv := diff[last];
    if iv.end < o.start then
      (diff, Receiver)
    else if iv.start > o.end then
      (diff, Other)
    else if iv.start >= o.start && iv.end <= o.end then
      (diff[..last], Receiver)
    else if iv.start < o.start && iv.end >= o.start && iv.end <= o.end then
      (diff[last := iv.(end := Wrap64(o.start - 1))], Receiver)
    else if iv.start >= o.start && iv.start <= o.end && iv.end > o.end then
      (diff[last := iv.(start := Wrap64(o.end + 1))], Other)
    else if iv.start < o.start && iv.end > o.end then
      (diff[last := iv.(end := Wrap64(o.start - 1))] + [Interval(Wrap64(o.end + 1), iv.end)], Other)
    else
      assert false; // the source panics here
      (diff, Receiver)
  }

  /** One round of the sweep finishes the last interval or leaves it past `b[j - 1]`. */
  lemma CarveKeeps(a: seq<Interval>, b: seq<Interval>, i: nat, p: nat, j: nat, diff: seq<Interval>)
    requires AllValid(a) && Ordered(b) && SubtractInv(a, b, i, p, j, diff)
    ensures var (diff', next) := Carve(diff, b[j - 1]);
            if next == Receiver then SubtractFinal(a, b, i, j, diff')
            else SubtractInv(a, b, i, p, j, diff') && b[j - 1].end < diff'[|diff'| - 1].start
  {
    hide SubtractFinal, KeepsShape, AtCursor, Survives, Has;
    var o, iv := b[j - 1], diff[|diff| - 1];
    if iv.end < o.start {
      SubtractBefore(a, b, i, p, j, diff);
    } else if iv.start > o.end {
    } else if iv.start >= o.start && iv.end <= o.end {
      SubtractCovered(a, b, i, p, j, diff);
    } else if iv.start < o.start && iv.end <= o.end {
      SubtractHead(a, b, i, p, j, diff);
    } else if iv.start >= o.start {
      SubtractTail(a, b, i, p, j, diff);
    } else {
      SubtractSplit(a, b, i, p, j, diff);
    }
  }

  /** Where the sweep stands after a round: still going, with the cursor the round began at, or done. */
  ghost predicate AfterRound(a: seq<Interval>, b: seq<Interval>, i: nat, p: nat, j: nat, diff: seq<Interval>,
                             next: Cursor) {
    && i <= |a| && 1 <= j <= |b|
    && match next
       case Receiver =>
         if i == |a| then Swept(a, b, diff + a[i..]) else SubtractInv(a, b, i + 1, j - 1, j, diff + [a[i]])
       case Other =>
         if j == |b| then Swept(a, b, diff + a[i..]) else SubtractInv(a, b, i, p, j + 1, diff)
  }

  /** One round together with the cursor move that follows it. */
  lemma Round(a: seq<Interval>, b: seq<Interval>, i: nat, p: nat, j: nat, diff: seq<Interval>)
    requires AllValid(a) && Ordered(b) && SubtractInv(a, b, i, p, j, diff)
    ensures var (diff', next) := Carve(diff, b[j - 1]);
            AfterRound(a, b, i, p, j, diff', next)
  {
    hide Swept, KeepsShape, AtCursor, Survives, Has;
    CarveKeeps(a, b, i, p, j, diff);
    var (diff', next) := Carve(diff, b[j - 1]);
    if next == Receiver {
      if i == |a| {
        SubtractComplete(a, b, i, j, diff');
      } else {
        SubtractAdvance(a, b, i, j, diff');
      }
    } else {
      if j == |b| {
        SubtractExhausted(a, b, i, p, j, diff');
      } else {
        SubtractAdvanceOther(a, b, i, p, j, diff');
      }
    }
  }

  /** The sweep of `Difference` over two non-empty lists. The receiver's may be in any order. */
  method Sweep(a: seq<Interval>, b: seq<Interval>) returns (diff: seq<Interval>)
    requires AllValid(a) && Ordered(b) && a != [] && b != []
    ensures Swept(a, b, diff)
  {
    hide Swept, KeepsShape, AtCursor, Survives, Has;
    var intervals, otherIntervals := a[1..], b[1..];
    var o := b[0];
    diff := [a[0]];
    ghost var i, p, j := 1, 0, 1;
    SubtractStart(a, b);
    while true
      invariant 1 <= i <= |a| && 0 <= p < j <= |b|
      invariant intervals == a[i..] && otherIntervals == b[j..] && o == b[j - 1]
      invariant SubtractInv(a, b, i, p, j, diff)
      decreases |intervals| + |otherIntervals|
    {
      Round(a, b, i, p, j, diff);
      var (diff', next) := Carve(diff, o);
      diff := diff';
      if next == Receiver {
        if |intervals| == 0 {
          break;
        }
        p := j - 1;
        diff, intervals, i := diff + [intervals[0]], intervals[1..], i + 1;
      } else {
        if |otherIntervals| == 0 {
          break;
        }
        o, otherIntervals, j := otherIntervals[0], otherIntervals[1..], j + 1;
      }
    }
    diff := diff + intervals;
  }

  // ----- when the sweep is exact -----

  /** The first number two intervals share, if they share one. */
  ghost function FirstShared(x: Interval, y: Interval): int64 {
    Max(x.start, y.start)
  }

  ghost predicate Share(x: Interval, y: Interval) {
    x.start <= y.end && y.start <= x.end
  }

  /** Some interval of `b` shares a number with `a[k]` that the cursor is past when the sweep takes `a[k]`. */
  ghost predicate Misses(a: seq<Interval>, b: seq<Interval>) {
    exists k, l :: 0 <= k < |a| && 0 <= l < |b| && Share(a[k], b[l]) && Kept(a, b, k, FirstShared(a[k], b[l]))
  }

  /** Nothing outside `b` is ever lost. */
  lemma MinusSurvives(a: seq<Interval>, b: seq<Interval>, n: int)
    requires HasMinus(a, b, n)
    ensures Survives(a, b, |a|, n)
  {
    var k :| 0 <= k < |a| && a[k].Holds(n);
    assert Kept(a, b, k, n);
  }

  /** If a number of `b` is kept, so is the first one the two intervals share. */
  lemma KeptFirst(a: seq<Interval>, b: seq<Interval>, k: nat, l: nat, n: int)
    requires AllValid(a) && Ordered(b) && k < |a| && l < |b| && b[l].Holds(n) && Kept(a, b, k, n)
    ensures Share(a[k], b[l]) && Kept(a, b, k, FirstShared(a[k], b[l]))
  {
    assert Passed(a, b, k, l);
    forall q | 0 <= q < |b| && b[q].Holds(FirstShared(a[k], b[l]))
      ensures Passed(a, b, k, q)
    {
      forall t | 0 <= t <= q
        ensures b[t].end < Reach(a, k)
      {
        assert b[t].start <= b[q].start;
        assert b[t].end < n || Passed(a, b, k, t);
      }
    }
  }

  /** The sweep leaves `a` minus `b` if and only if it misses nothing. */
  lemma SweepExact(a: seq<Interval>, b: seq<Interval>)
    requires AllValid(a) && Ordered(b)
    ensures (forall n :: Survives(a, b, |a|, n) <==> HasMinus(a, b, n)) <==> !Misses(a, b)
  {
    if Misses(a, b) {
      var k, l :| 0 <= k < |a| && 0 <= l < |b| && Share(a[k], b[l]) && Kept(a, b, k, FirstShared(a[k], b[l]));
      assert a[k].Valid() && b[l].Valid();
      assert b[l].Holds(FirstShared(a[k], b[l]));
      assert Survives(a, b, |a|, FirstShared(a[k], b[l]));
      assert !HasMinus(a, b, FirstShared(a[k], b[l]));
    } else {
      forall n
        ensures Survives(a, b, |a|, n) <==> HasMinus(a, b, n)
      {
        if HasMinus(a, b, n) {
          MinusSurvives(a, b, n);
        }
        if Survives(a, b, |a|, n) {
          var k :| 0 <= k < |a| && Kept(a, b, k, n);
          forall l | 0 <= l < |b|
            ensures !b[l].Holds(n)
          {
            if b[l].Holds(n) {
              KeptFirst(a, b, k, l, n);
            }
          }
        }
      }
    }
  }

  /** `b[l]` ends before an earlier interval of `a` and meets the later `a[k]`. */
  ghost predicate OverlapMisses(a: seq<Interval>, b: seq<Interval>, m: nat, k: nat, l: nat) {
    m < k < |a| && l < |b| && b[l].end < a[m].end && Share(a[k], b[l])
  }

  /** What is missed lies in two intervals of `a`, the earlier of which ends after the interval of `b`. */
  lemma MissedOverlap(a: seq<Interval>, b: seq<Interval>) returns (m: nat, k: nat, l: nat)
    requires AllValid(a) && AllValid(b) && Misses(a, b)
    ensures OverlapMisses(a, b, m, k, l)
  {
    k, l :| 0 <= k < |a| && 0 <= l < |b| && Share(a[k], b[l]) && Kept(a, b, k, FirstShared(a[k], b[l]));
    assert a[k].Valid() && b[l].Valid();
    assert b[l].Holds(FirstShared(a[k], b[l]));
    assert Passed(a, b, k, l);
    m :| 0 <= m < k && a[m].end == Reach(a, k);
  }

  lemma OverlapMissed(a: seq<Interval>, b: seq<Interval>, m: nat, k: nat, l: nat)
    requires AllValid(a) && Disjoint(b) && OverlapMisses(a, b, m, k, l)
    ensures Misses(a, b)
  {
    var first := FirstShared(a[k], b[l]);
    assert a[k].Valid() && b[l].Valid();
    forall q | 0 <= q < |b| && b[q].Holds(first)
      ensures Passed(a, b, k, q)
    {
      assert q == l;
      assert forall t :: 0 <= t < l ==> b[t].end < b[l].start;
    }
    assert Kept(a, b, k, first);
  }

  /** Against a disjoint `b`, those are all the misses. */
  lemma MissesDisjoint(a: seq<Interval>, b: seq<Interval>)
    requires AllValid(a) && Disjoint(b)
    ensures Misses(a, b) <==> exists m: nat, k: nat, l: nat :: OverlapMisses(a, b, m, k, l)
  {
    if Misses(a, b) {
      var m, k, l := MissedOverlap(a, b);
    }
    if m: nat, k: nat, l: nat :| OverlapMisses(a, b, m, k, l) {
      OverlapMissed(a, b, m, k, l);
    }
  }

  /** A number in the head of a later interval, inside an earlier one, is kept. */
  lemma LaterKept(a: seq<Interval>, j: nat, k: nat, b: seq<Interval>)
    requires AllValid(a) && j < k < |a| && a[j].end > a[k].start && b == [Interval(a[k].start, a[k].start)]
    ensures Survives(a, b, |a|, a[k].start)
  {
    assert a[k].Valid();
    assert Kept(a, b, k, a[k].start);
  }

  /**
   The sweep is exact against every ordered list if and only if no interval of `a` begins before an earlier one ends.
   */
  lemma NeverMisses(a: seq<Interval>)
    requires AllValid(a)
    ensures (forall b: seq<Interval> | Ordered(b) :: !Misses(a, b)) <==> Successive(a)
  {
    if Successive(a) {
      forall b: seq<Interval> | Ordered(b)
        ensures !Misses(a, b)
      {
        SuccessiveMissesNone(a, b);
      }
    } else {
      var j, k :| 0 <= j < k < |a| && a[j].end > a[k].start;
      var b := [Interval(a[k].start, a[k].start)];
      assert a[k].Valid();
      OverlapMissed(a, b, j, k, 0);
      assert Ordered(b);
    }
  }

  lemma SuccessiveMissesNone(a: seq<Interval>, b: seq<Interval>)
    requires Successive(a) && AllValid(b)
    ensures !Misses(a, b)
  {
    if Misses(a, b) {
      var m, k, l := MissedOverlap(a, b);
      assert false;
    }
  }

  /** Losing the head of a list loses a number. */
  ghost predicate HeadMatters(a: seq<Interval>) {
    a != [] && exists n :: a[0].Holds(n) && !Has(a[1..], n)
  }

  lemma DisjointHeadMatters(a: seq<Interval>)
    requires Disjoint(a)
    ensures HeadMatters(a) <==> a != []
  {
    if a != [] {
      forall k | 0 <= k < |a[1..]|
        ensures !a[1..][k].Holds(a[0].start)
      {
        assert a[1..][k] == a[k + 1];
      }
      assert a[0].Valid();
      assert a[0].Holds(a[0].start);
    }
  }

  /**
   The body of `Difference` for one server present in both sets: `None` when the server is left out
   of the result. An empty `b` loses the head of `a`, as in the source.
   */
  method Subtract(a: seq<Interval>, b: seq<Interval>) returns (r: Option<seq<Interval>>)
    requires AllValid(a) && Ordered(b)
    ensures a == [] ==> r == None
    ensures a != [] && b == [] ==> r == Some(a[1..])
    ensures b != [] ==> match r
                        case None => forall n :: !Survives(a, b, |a|, n)
                        case Some(d) => d != [] && Swept(a, b, d)
  {
    if |a| == 0 {
      return None;
    }
    if |b| == 0 {
      return Some(a[1..]);
    }
    var diff := Sweep(a, b);
    r := if |diff| == 0 then None else Some(diff);
  }
}
