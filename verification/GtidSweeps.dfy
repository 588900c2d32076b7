/** The other passes over the interval lists of one server: union, intersection, inclusion, insertion, trimming. */
module GtidSweeps {
  import opened GtidIntervals

  // ----- Union -----

  /** The starts still to come are not before the active interval's. */
  ghost predicate StartsFrom(s: seq<Interval>, n: int) {
    forall k :: 0 <= k < |s| ==> n <= s[k].start
  }

  /** `popInterval`: the next interval by start, and what is left of both lists. */
  function PopInterval(s1: seq<Interval>, s2: seq<Interval>): (r: (Interval, seq<Interval>, seq<Interval>))
    requires s1 != [] || s2 != []
    ensures Ordered(s1) && Ordered(s2) ==>
              r.0.Valid() && Ordered(r.1) && Ordered(r.2) && StartsFrom(r.1, r.0.start) && StartsFrom(r.2, r.0.start)
    ensures |r.1| + |r.2| < |s1| + |s2|
  {
    if |s2| == 0 || (|s1| != 0 && s1[0].start <= s2[0].start) then (s1[0], s1[1..], s2) else (s2[0], s1, s2[1..])
  }

  lemma PopKeeps(s1: seq<Interval>, s2: seq<Interval>)
    requires s1 != [] || s2 != []
    ensures var (x, t1, t2) := PopInterval(s1, s2);
            forall n :: Has(s1, n) || Has(s2, n) <==> x.Holds(n) || Has(t1, n) || Has(t2, n)
  {
    var (x, t1, t2) := PopInterval(s1, s2);
    if t2 == s2 && s1 != [] && x == s1[0] && t1 == s1[1..] {
      assert s1 == [x] + t1;
      HasCons(x, t1);
    } else {
      assert s2 == [x] + t2;
      HasCons(x, t2);
    }
  }

  /** Pushing the next interval by start onto a canonical list, merging when they meet. */
  function Push(merged: seq<Interval>, x: Interval): (r: seq<Interval>)
  {
    if |merged| == 0 then [x]
    else
      var active := merged[|merged| - 1];
      if x.end <= active.end then merged
      else if x.start > Wrap64(active.end + 1) then merged + [x]
      else merged[|merged| - 1 := active.(end := x.end)]
  }

  lemma PushKeeps(merged: seq<Interval>, x: Interval)
    requires Canonical(merged) && x.Valid()
    requires |merged| > 0 ==> merged[|merged| - 1].start <= x.start
    ensures var r := Push(merged, x);
            && Canonical(r) && |r| > 0 && r[|r| - 1].start <= x.start
            && forall n :: Has(r, n) <==> Has(merged, n) || x.Holds(n)
  {
    var r := Push(merged, x);
    if |merged| == 0 {
      HasSingle(x);
    } else {
      var active, front := merged[|merged| - 1], merged[..|merged| - 1];
      assert merged == front + [active];
      HasSnoc(front, active);
      assert active.Valid();
      if x.end <= active.end {
      } else if x.start > active.end + 1 {
        HasSnoc(merged, x);
      } else {
        assert r == front + [active.(end := x.end)];
        HasSnoc(front, active.(end := x.end));
      }
    }
  }

  /** The body of `Union` for one server present in both sets. */
  method Merge(a: seq<Interval>, b: seq<Interval>) returns (merged: seq<Interval>)
    requires Ordered(a) && Ordered(b)
    ensures Canonical(merged)
    ensures forall n :: Has(merged, n) <==> Has(a, n) || Has(b, n)
  {
    var s1, s2 := a, b;
    merged := [];
    while |s1| != 0 || |s2| != 0
      invariant Ordered(s1) && Ordered(s2) && Canonical(merged)
      invariant |merged| > 0 ==>
          StartsFrom(s1, merged[|merged| - 1].start) && StartsFrom(s2, merged[|merged| - 1].start)
      invariant forall n :: Has(a, n) || Has(b, n) <==> Has(merged, n) || Has(s1, n) || Has(s2, n)
      decreases |s1| + |s2|
    {
      PopKeeps(s1, s2);
      var (x, t1, t2) := PopInterval(s1, s2);
      PushKeeps(merged, x);
      merged, s1, s2 := Push(merged, x), t1, t2;
    }
  }

  // ----- Intersect -----

  ghost predicate HasBoth(a: seq<Interval>, b: seq<Interval>, n: int) {
    Has(a, n) && Has(b, n)
  }

  /** What still has to be intersected once `i` and `j` intervals are done with. */
  ghost predicate IntersectInv(a: seq<Interval>, b: seq<Interval>, i: int, j: int, r: seq<Interval>) {
    && 0 <= i <= |a| && 0 <= j <= |b|
    && (forall k :: 0 <= k < |r| ==> r[k].Valid())
    && (forall n :: HasBoth(a, b, n) <==> Has(r, n) || HasBoth(a[i..], b[j..], n))
  }

  /** The result so far is canonical and stays clear of anything found later. */
  ghost predicate IntersectGaps(a: seq<Interval>, b: seq<Interval>, i: int, j: int, r: seq<Interval>)
    requires 0 <= i <= |a| && 0 <= j <= |b|
  {
    && Canonical(r)
    && (i < |a| && j < |b| && |r| > 0 ==>
          r[|r| - 1].end + 1 < a[i].start || r[|r| - 1].end + 1 < b[j].start)
  }

  /** No later interval of `b` reaches into `a[i]` where `b[j]` does not. */
  lemma DropReceiver(a: seq<Interval>, b: seq<Interval>, i: int, j: int, n: int)
    requires Ordered(a) && Ordered(b) && 0 <= i < |a| && 0 <= j < |b|
    requires a[i].end <= b[j].end || a[i].end < b[j].start
    ensures HasBoth(a[i..], b[j..], n) <==> (a[i].Holds(n) && b[j].Holds(n)) || HasBoth(a[i + 1..], b[j..], n)
  {
    assert a[i..] == [a[i]] + a[i + 1..];
    HasCons(a[i], a[i + 1..]);
    assert b[j..][0] == b[j];
    if a[i].Holds(n) && Has(b[j..], n) {
      var k :| 0 <= k < |b[j..]| && b[j..][k].Holds(n);
      assert b[j..][k] == b[j + k];
      assert b[j].start <= b[j + k].start;
    }
  }

  lemma DropOther(a: seq<Interval>, b: seq<Interval>, i: int, j: int, n: int)
    requires Ordered(a) && Ordered(b) && 0 <= i < |a| && 0 <= j < |b|
    requires b[j].end <= a[i].end || b[j].end < a[i].start
    ensures HasBoth(a[i..], b[j..], n) <==> (a[i].Holds(n) && b[j].Holds(n)) || HasBoth(a[i..], b[j + 1..], n)
  {
    DropReceiver(b, a, j, i, n);
  }

  /** The next move of `Intersect`: an interval it found, if any, and the cursor it advances. */
  function Meet(x: Interval, y: Interval): (r: (seq<Interval>, Cursor))
  {
    if x.start > y.end then ([], Other)
    else if x.end < y.start then ([], Receiver)
    else ([Interval(Max(x.start, y.start), Min(x.end, y.end))], if x.end > y.end then Other else Receiver)
  }

  lemma MeetKeeps(a: seq<Interval>, b: seq<Interval>, i: int, j: int, r: seq<Interval>)
    requires Ordered(a) && Ordered(b) && 0 <= i < |a| && 0 <= j < |b| && IntersectInv(a, b, i, j, r)
    ensures var (found, next) := Meet(a[i], b[j]);
            if next == Receiver then IntersectInv(a, b, i + 1, j, r + found)
            else IntersectInv(a, b, i, j + 1, r + found)
  {
    var (found, next) := Meet(a[i], b[j]);
    assert a[i].Valid() && b[j].Valid();
    forall n
      ensures Has(found, n) <==> a[i].Holds(n) && b[j].Holds(n)
    {
      if found != [] {
        HasSingle(found[0]);
      }
    }
    HasConcat(r, found);
    forall n
      ensures next == Receiver ==> (HasBoth(a, b, n) <==> Has(r + found, n) || HasBoth(a[i + 1..], b[j..], n))
      ensures next == Other ==> (HasBoth(a, b, n) <==> Has(r + found, n) || HasBoth(a[i..], b[j + 1..], n))
    {
      if next == Receiver {
        DropReceiver(a, b, i, j, n);
      } else {
        DropOther(a, b, i, j, n);
      }
    }
  }

  lemma MeetKeepsGaps(a: seq<Interval>, b: seq<Interval>, i: int, j: int, r: seq<Interval>)
    requires Canonical(a) && Canonical(b) && 0 <= i < |a| && 0 <= j < |b| && IntersectGaps(a, b, i, j, r)
    ensures var (found, next) := Meet(a[i], b[j]);
            if next == Receiver then IntersectGaps(a, b, i + 1, j, r + found)
            else IntersectGaps(a, b, i, j + 1, r + found)
  {
    var (found, next) := Meet(a[i], b[j]);
    assert a[i].Valid() && b[j].Valid();
    if found == [] {
      assert r + found == r;
    }
  }

  /** The body of `Intersect` for one server present in both sets. */
  method Common(a: seq<Interval>, b: seq<Interval>) returns (r: seq<Interval>)
    requires Ordered(a) && Ordered(b)
    ensures forall n :: Has(r, n) <==> Has(a, n) && Has(b, n)
    ensures Canonical(a) && Canonical(b) ==> Canonical(r)
  {
    var i, j := 0, 0;
    r := [];
    assert a[0..] == a && b[0..] == b;
    while i < |a| && j < |b|
      invariant IntersectInv(a, b, i, j, r)
      invariant Canonical(a) && Canonical(b) ==> IntersectGaps(a, b, i, j, r)
      decreases |a| - i + |b| - j
    {
      MeetKeeps(a, b, i, j, r);
      if Canonical(a) && Canonical(b) {
        MeetKeepsGaps(a, b, i, j, r);
      }
      var (found, next) := Meet(a[i], b[j]);
      r := r + found;
      match next
      case Receiver => i := i + 1;
      case Other => j := j + 1;
    }
    forall n
      ensures Has(r, n) <==> Has(a, n) && Has(b, n)
    {
      assert HasBoth(a, b, n) <==> Has(r, n) || HasBoth(a[i..], b[j..], n);
    }
  }

  // ----- Contains -----

  /** Some single interval of `a` contains `iv`. */
  ghost predicate Covered(a: seq<Interval>, iv: Interval) {
    exists k :: 0 <= k < |a| && a[k].Contains(iv)
  }

  /** Every interval of `b` lies inside a single interval of `a`. */
  ghost predicate AllCovered(a: seq<Interval>, b: seq<Interval>) {
    forall k :: 0 <= k < |b| ==> Covered(a, b[k])
  }

  /** Skipping the intervals that do not contain `b[k]` loses nothing for what comes after `b[k]`. */
  lemma SkipKeeps(a: seq<Interval>, b: seq<Interval>, from: int, i: int, k: int, q: int)
    requires Ordered(a) && Ordered(b) && 0 <= from <= i < |a| && 0 <= k < q < |b|
    requires forall m :: from <= m < i ==> !a[m].Contains(b[k])
    requires a[i].Contains(b[k]) && Covered(a[from..], b[q])
    ensures Covered(a[i..], b[q])
  {
    var m :| 0 <= m < |a[from..]| && a[from..][m].Contains(b[q]);
    assert a[from..][m] == a[from + m];
    if from + m < i {
      assert !a[from + m].Contains(b[k]);
      assert a[from + m].start <= a[i].start && b[k].start <= b[q].start;
      assert a[i..][0].Contains(b[q]);
    } else {
      assert a[i..][from + m - i] == a[from + m];
    }
  }

  /** The single pass of `Contains` over one server's lists. */
  method Covers(a: seq<Interval>, b: seq<Interval>) returns (r: bool)
    requires Ordered(a) && Ordered(b)
    ensures r <==> AllCovered(a, b)
  {
    var i := 0;
    assert a[0..] == a;
    for k := 0 to |b|
      invariant 0 <= i <= |a|
      invariant forall q :: 0 <= q < k ==> Covered(a, b[q])
      invariant forall q :: k <= q < |b| && Covered(a, b[q]) ==> Covered(a[i..], b[q])
    {
      ghost var from := i;
      while i < |a| && !a[i].Contains(b[k])
        invariant from <= i <= |a|
        invariant forall m :: from <= m < i ==> !a[m].Contains(b[k])
      {
        i := i + 1;
      }
      if i >= |a| {
        forall m | 0 <= m < |a[from..]|
          ensures !a[from..][m].Contains(b[k])
        {
          assert a[from..][m] == a[from + m];
        }
        return false;
      }
      forall q | k < q < |b| && Covered(a, b[q])
        ensures Covered(a[i..], b[q])
      {
        SkipKeeps(a, b, from, i, k, q);
      }
    }
    return true;
  }

  /** Every number of `b` is in `a`. */
  ghost predicate Within(b: seq<Interval>, a: seq<Interval>) {
    forall n :: Has(b, n) ==> Has(a, n)
  }

  /** Wherever two intervals of `a` overlap or touch, a single one spans both. */
  ghost predicate Unbroken(a: seq<Interval>) {
    forall j, k :: 0 <= j < k < |a| ==> PairSpanned(a, j, k)
  }

  ghost predicate PairSpanned(a: seq<Interval>, j: int, k: int)
    requires 0 <= j < k < |a|
  {
    a[k].start <= a[j].end + 1 ==> Covered(a, Interval(a[j].start, Max(a[j].end, a[k].end)))
  }

  lemma NoneSpans(a: seq<Interval>, j: nat, k: nat)
    requires Disjoint(a) && j < k < |a|
    ensures !Covered(a, Interval(a[j].start, Max(a[j].end, a[k].end)))
  {
    assert a[j].Valid() && a[k].Valid();
    forall m | 0 <= m < |a|
      ensures !a[m].Contains(Interval(a[j].start, Max(a[j].end, a[k].end)))
    {
      assert m <= j ==> a[m].end < a[k].start;
      assert m > j ==> a[j].end < a[m].start;
    }
  }

  /** For disjoint lists that is canonical form. */
  lemma DisjointUnbroken(a: seq<Interval>)
    requires Disjoint(a)
    ensures Unbroken(a) <==> Canonical(a)
  {
    if Unbroken(a) {
      forall j, k | 0 <= j < k < |a|
        ensures a[j].end + 1 < a[k].start
      {
        NoneSpans(a, j, k);
        assert PairSpanned(a, j, k);
      }
    }
  }

  /** Of the first `i` intervals that hold `n`, one that ends last. */
  lemma Furthest(a: seq<Interval>, i: nat, n: int) returns (k: nat)
    requires i <= |a| && Has(a[..i], n)
    ensures k < i && a[k].Holds(n)
    ensures forall m :: 0 <= m < i && a[m].Holds(n) ==> a[m].end <= a[k].end
  {
    assert a[..i] == a[..i - 1] + [a[i - 1]];
    HasSnoc(a[..i - 1], a[i - 1]);
    if !Has(a[..i - 1], n) {
      k := i - 1;
      forall m | 0 <= m < i - 1
        ensures !a[m].Holds(n)
      {
        assert a[..i - 1][m] == a[m];
      }
    } else {
      k := Furthest(a, i - 1, n);
      if a[i - 1].Holds(n) && a[i - 1].end > a[k].end {
        k := i - 1;
      }
    }
  }

  /** An interval that goes on where `a[k]` ends gives one that holds as much and ends later. */
  lemma Further(a: seq<Interval>, k: nat, m: nat, n: int) returns (q: nat)
    requires Ordered(a) && Unbroken(a) && k < |a| && m < |a|
    requires a[k].Holds(n) && a[m].Holds(a[k].end + 1)
    ensures q < |a| && a[q].Holds(n) && a[k].end < a[q].end
  {
    if m < k {
      q := m;
    } else {
      assert PairSpanned(a, k, m);
      hide Unbroken, PairSpanned;
      q :| 0 <= q < |a| && a[q].Contains(Interval(a[k].start, Max(a[k].end, a[m].end)));
    }
  }

  /** An unbroken list holds every number of `iv` only with a single interval. */
  lemma {:induction false} SingleCover(a: seq<Interval>, iv: Interval)
    requires Ordered(a) && Unbroken(a) && iv.Valid()
    ensures Covered(a, iv) <==> forall n | iv.Holds(n) :: Has(a, n)
  {
    if Covered(a, iv) {
      var k :| 0 <= k < |a| && a[k].Contains(iv);
      forall n | iv.Holds(n)
        ensures Has(a, n)
      {
        assert a[k].Holds(n);
      }
    }
    if forall n | iv.Holds(n) :: Has(a, n) {
      assert iv.Holds(iv.start) && a[..|a|] == a;
      var k := Furthest(a, |a|, iv.start);
      if a[k].end < iv.end {
        assert iv.Holds(a[k].end + 1);
        var m :| 0 <= m < |a| && a[m].Holds(a[k].end + 1);
        var q := Further(a, k, m, iv.start);
        assert false;
      }
    }
  }

  /** With an unbroken receiver, `Covers` decides inclusion. */
  lemma CoversIsSubset(a: seq<Interval>, b: seq<Interval>)
    requires Ordered(a) && Unbroken(a) && Ordered(b)
    ensures AllCovered(a, b) <==> Within(b, a)
  {
    if AllCovered(a, b) {
      forall n | Has(b, n)
        ensures Has(a, n)
      {
        var k :| 0 <= k < |b| && b[k].Holds(n);
        SingleCover(a, b[k]);
      }
    }
    if Within(b, a) {
      forall k | 0 <= k < |b|
        ensures Covered(a, b[k])
      {
        forall n | b[k].Holds(n)
          ensures Has(a, n)
        {
          assert Has(b, n);
        }
        SingleCover(a, b[k]);
      }
    }
  }

  /** `Covers` decides inclusion of every ordered list if and only if the receiver is unbroken. */
  lemma CoversExact(a: seq<Interval>)
    requires Ordered(a)
    ensures (forall b: seq<Interval> | Ordered(b) :: AllCovered(a, b) <==> Within(b, a)) <==> Unbroken(a)
  {
    if Unbroken(a) {
      forall b: seq<Interval> | Ordered(b)
        ensures AllCovered(a, b) <==> Within(b, a)
      {
        CoversIsSubset(a, b);
      }
    } else {
      var j, k :| 0 <= j < k < |a| && !PairSpanned(a, j, k);
      var b := BrokenMissed(a, j, k);
    }
  }

  /** Two intervals that meet hold all of their span, which no single interval covers. */
  lemma BrokenMissed(a: seq<Interval>, j: nat, k: nat) returns (b: seq<Interval>)
    requires Ordered(a) && j < k < |a| && a[k].start <= a[j].end + 1
    requires !Covered(a, Interval(a[j].start, Max(a[j].end, a[k].end)))
    ensures Canonical(b) && b != [] && Ordered(b) && Within(b, a) && !AllCovered(a, b)
  {
    b := [Interval(a[j].start, Max(a[j].end, a[k].end))];
    assert a[j].Valid() && a[k].Valid();
    assert !Covered(a, b[0]);
    forall n | Has(b, n)
      ensures Has(a, n)
    {
      assert b[0].Holds(n);
      assert a[j].Holds(n) || a[k].Holds(n);
    }
  }

  // ----- ContainsGTID and AddGTID -----

  /** The scan of `ContainsGTID`, which stops at the first interval past the number. */
  method Find(ivs: seq<Interval>, sequence: int64) returns (r: bool)
    requires Ordered(ivs)
    ensures r <==> Has(ivs, sequence)
  {
    for k := 0 to |ivs|
      invariant forall m :: 0 <= m < k ==> !ivs[m].Holds(sequence)
    {
      if ivs[k].start > sequence {
        return false;
      }
      if sequence <= ivs[k].end {
        assert ivs[k].Holds(sequence);
        return true;
      }
    }
    return false;
  }

  /** How `AddGTID` treats one interval before the number is placed: what goes in front of it, what becomes of it. */
  function Place(iv: Interval, sequence: int64): (r: (seq<Interval>, Interval, bool))
  {
    if sequence == Wrap64(iv.start - 1) then ([], iv.(start := sequence), true)
    else if sequence == Wrap64(iv.end + 1) then ([], iv.(end := sequence), true)
    else if sequence < Wrap64(iv.start - 1) then ([Interval(sequence, sequence)], iv, true)
    else ([], iv, false)
  }

  /** Appending an interval, merged with the previous one when they touch. */
  function Append(ivs: seq<Interval>, iv: Interval): (r: seq<Interval>)
  {
    if |ivs| != 0 && iv.start == Wrap64(ivs[|ivs| - 1].end + 1) then
      ivs[|ivs| - 1 := ivs[|ivs| - 1].(end := iv.end)]
    else
      ivs + [iv]
  }

  lemma AppendKeeps(ivs: seq<Interval>, iv: Interval)
    requires Canonical(ivs) && iv.Valid() && (|ivs| > 0 ==> ivs[|ivs| - 1].end < iv.start)
    ensures var r := Append(ivs, iv);
            && Canonical(r) && |r| > 0 && r[|r| - 1].end == iv.end
            && forall n :: Has(r, n) <==> Has(ivs, n) || iv.Holds(n)
  {
    var r := Append(ivs, iv);
    if |ivs| != 0 && iv.start == ivs[|ivs| - 1].end + 1 {
      var front, last := ivs[..|ivs| - 1], ivs[|ivs| - 1];
      assert ivs == front + [last] && r == front + [last.(end := iv.end)];
      HasSnoc(front, last);
      HasSnoc(front, last.(end := iv.end));
      assert last.Valid();
    } else {
      HasSnoc(ivs, iv);
    }
  }

  /** Where `AddGTID` stands after `k` intervals. */
  ghost predicate InsertInv(ivs: seq<Interval>, sequence: int64, k: int, r: seq<Interval>, added: bool) {
    && 0 <= k <= |ivs| && Canonical(r)
    && (forall n :: Has(r, n) <==> Has(ivs[..k], n) || (added && n == sequence))
    && (|r| > 0 ==> k > 0)
    && (k > 0 ==> |r| > 0 && ivs[k - 1].end <= r[|r| - 1].end <= ivs[k - 1].end + 1
                  && (!added ==> r[|r| - 1].end == ivs[k - 1].end && ivs[k - 1].end + 1 < sequence))
  }

  /** The number is already placed: the rest is copied. */
  lemma InsertCopy(ivs: seq<Interval>, sequence: int64, k: int, r: seq<Interval>)
    requires Canonical(ivs) && !Has(ivs, sequence)
    requires k < |ivs| && InsertInv(ivs, sequence, k, r, true)
    ensures InsertInv(ivs, sequence, k + 1, Append(r, ivs[k]), true)
  {
    assert ivs[..k + 1] == ivs[..k] + [ivs[k]];
    HasSnoc(ivs[..k], ivs[k]);
    assert ivs[k].Valid();
    AppendKeeps(r, ivs[k]);
  }

  /** The number is placed in front of `ivs[k]`. */
  lemma InsertBefore(ivs: seq<Interval>, sequence: int64, k: int, r: seq<Interval>)
    requires Canonical(ivs) && 1 <= sequence && k < |ivs| && InsertInv(ivs, sequence, k, r, false)
    requires sequence + 1 < ivs[k].start
    ensures InsertInv(ivs, sequence, k + 1, Append(r + [Interval(sequence, sequence)], ivs[k]), true)
  {
    var s := Interval(sequence, sequence);
    assert ivs[..k + 1] == ivs[..k] + [ivs[k]];
    HasSnoc(ivs[..k], ivs[k]);
    HasSnoc(r, s);
    assert ivs[k].Valid();
    AppendKeeps(r + [s], ivs[k]);
  }

  /** `ivs[k]` grows by the number, at either end. */
  lemma InsertJoin(ivs: seq<Interval>, sequence: int64, k: int, r: seq<Interval>, iv: Interval)
    requires Canonical(ivs) && 1 <= sequence && k < |ivs| && InsertInv(ivs, sequence, k, r, false)
    requires (sequence == ivs[k].start - 1 && iv == ivs[k].(start := sequence))
          || (sequence == ivs[k].end + 1 && iv == ivs[k].(end := sequence))
    ensures InsertInv(ivs, sequence, k + 1, Append(r, iv), true)
  {
    assert ivs[..k + 1] == ivs[..k] + [ivs[k]];
    HasSnoc(ivs[..k], ivs[k]);
    assert ivs[k].Valid();
    assert forall n :: iv.Holds(n) <==> ivs[k].Holds(n) || n == sequence;
    AppendKeeps(r, iv);
  }

  /** The number lies further on. */
  lemma InsertLater(ivs: seq<Interval>, sequence: int64, k: int, r: seq<Interval>)
    requires Canonical(ivs) && 1 <= sequence && k < |ivs| && InsertInv(ivs, sequence, k, r, false)
    requires ivs[k].end + 1 < sequence
    ensures InsertInv(ivs, sequence, k + 1, Append(r, ivs[k]), false)
  {
    assert ivs[..k + 1] == ivs[..k] + [ivs[k]];
    HasSnoc(ivs[..k], ivs[k]);
    assert ivs[k].Valid();
    AppendKeeps(r, ivs[k]);
  }

  lemma InsertPlace(ivs: seq<Interval>, sequence: int64, k: int, r: seq<Interval>)
    requires Canonical(ivs) && 1 <= sequence && !Has(ivs, sequence)
    requires k < |ivs| && InsertInv(ivs, sequence, k, r, false)
    ensures var (before, iv, placed) := Place(ivs[k], sequence);
            InsertInv(ivs, sequence, k + 1, Append(r + before, iv), placed)
  {
    var (before, iv, placed) := Place(ivs[k], sequence);
    assert ivs[k].Valid() && !ivs[k].Holds(sequence);
    assert r + [] == r;
    if sequence == ivs[k].start - 1 || sequence == ivs[k].end + 1 {
      InsertJoin(ivs, sequence, k, r, iv);
    } else if sequence < ivs[k].start {
      InsertBefore(ivs, sequence, k, r);
    } else {
      InsertLater(ivs, sequence, k, r);
    }
  }

  /** What `AddGTID` has after `k` intervals of any list: their numbers, and the new one once it is placed. */
  ghost predicate InsertAdds(ivs: seq<Interval>, sequence: int64, k: int, r: seq<Interval>, added: bool) {
    && 0 <= k <= |ivs| && AllValid(r) && AllCovered(r, ivs[..k])
    && forall n :: Has(r, n) <==> Has(ivs[..k], n) || (added && n == sequence)
  }

  /** What it has after `k` intervals of an ordered list. */
  ghost predicate InsertOrders(ivs: seq<Interval>, sequence: int64, k: int, r: seq<Interval>, added: bool) {
    && 0 <= k <= |ivs| && Ordered(r)
    && (r != [] ==> k > 0 && r[|r| - 1].start <= ivs[k - 1].start)
    && (!added ==> forall m :: 0 <= m < k ==> ivs[m].start <= sequence)
  }

  lemma AppendAdds(ivs: seq<Interval>, iv: Interval)
    requires AllValid(ivs) && iv.Valid()
    ensures var r := Append(ivs, iv);
            && AllValid(r) && Covered(r, iv)
            && (forall n :: Has(r, n) <==> Has(ivs, n) || iv.Holds(n))
            && forall x :: Covered(ivs, x) ==> Covered(r, x)
  {
    var r := Append(ivs, iv);
    if |ivs| != 0 && iv.start == Wrap64(ivs[|ivs| - 1].end + 1) {
      var front, last := ivs[..|ivs| - 1], ivs[|ivs| - 1];
      assert last.Valid();
      assert ivs == front + [last] && r == front + [last.(end := iv.end)];
      HasSnoc(front, last);
      HasSnoc(front, last.(end := iv.end));
      assert r[|r| - 1].Contains(iv);
      CoveredLonger(ivs, r);
    } else {
      HasSnoc(ivs, iv);
      assert r[|r| - 1].Contains(iv);
      CoveredLonger(ivs, r);
    }
  }

  /** Intervals that stay or grow cover what they covered. */
  lemma CoveredLonger(a: seq<Interval>, b: seq<Interval>)
    requires |a| <= |b| && forall k :: 0 <= k < |a| ==> b[k].Contains(a[k])
    ensures forall x :: Covered(a, x) ==> Covered(b, x)
  {
    forall x | Covered(a, x)
      ensures Covered(b, x)
    {
      var k :| 0 <= k < |a| && a[k].Contains(x);
      assert b[k].Contains(x);
    }
  }

  lemma AppendOrders(ivs: seq<Interval>, iv: Interval)
    requires Ordered(ivs) && iv.Valid() && (ivs != [] ==> ivs[|ivs| - 1].start <= iv.start)
    ensures var r := Append(ivs, iv);
            Ordered(r) && r != [] && r[|r| - 1].start <= iv.start
  {
    assert ivs != [] ==> ivs[|ivs| - 1].Valid();
  }

  /** One interval, before or after the number is placed. */
  lemma InsertAddsNext(ivs: seq<Interval>, sequence: int64, k: int, r: seq<Interval>, added: bool)
    requires AllValid(ivs) && 1 <= sequence && k < |ivs| && InsertAdds(ivs, sequence, k, r, added)
    ensures var (before, iv, placed) := if added then ([], ivs[k], true) else Place(ivs[k], sequence);
            InsertAdds(ivs, sequence, k + 1, Append(r + before, iv), placed)
  {
    var (before, iv, placed) := if added then ([], ivs[k], true) else Place(ivs[k], sequence);
    assert ivs[k].Valid();
    assert ivs[..k + 1] == ivs[..k] + [ivs[k]];
    HasSnoc(ivs[..k], ivs[k]);
    var r' := r + before;
    if before == [] {
      assert r' == r;
    } else {
      HasSnoc(r, before[0]);
      CoveredLonger(r, r');
    }
    AppendAdds(r', iv);
    hide Append, Has;
    assert iv.Contains(ivs[k]);
    assert Covered(Append(r', iv), ivs[k]) by { CoveredBy(Append(r', iv), iv, ivs[k]); }
    var done := ivs[..k + 1];
    forall m | 0 <= m < |done|
      ensures Covered(Append(r', iv), done[m])
    {
      if m < k {
        assert done[m] == ivs[..k][m];
      }
    }
  }

  lemma CoveredBy(a: seq<Interval>, x: Interval, y: Interval)
    requires Covered(a, x) && x.Contains(y)
    ensures Covered(a, y)
  {
    var k :| 0 <= k < |a| && a[k].Contains(x);
    assert a[k].Contains(y);
  }

  lemma InsertOrdersNext(ivs: seq<Interval>, sequence: int64, k: int, r: seq<Interval>, added: bool)
    requires Ordered(ivs) && 1 <= sequence && k < |ivs| && InsertOrders(ivs, sequence, k, r, added)
    ensures var (before, iv, placed) := if added then ([], ivs[k], true) else Place(ivs[k], sequence);
            InsertOrders(ivs, sequence, k + 1, Append(r + before, iv), placed)
  {
    hide Append;
    var (before, iv, placed) := if added then ([], ivs[k], true) else Place(ivs[k], sequence);
    assert ivs[k].Valid();
    if before == [] {
      assert r + before == r;
    } else {
      SnocOrders(r, before[0]);
    }
    AppendOrders(r + before, iv);
  }

  lemma SnocOrders(ivs: seq<Interval>, iv: Interval)
    requires Ordered(ivs) && iv.Valid() && (ivs != [] ==> ivs[|ivs| - 1].start <= iv.start)
    ensures Ordered(ivs + [iv])
  {
  }

  /** The body of `AddGTID` for the list of the transaction's own server. */
  method Insert(ivs: seq<Interval>, sequence: int64) returns (r: seq<Interval>)
    requires AllValid(ivs) && 1 <= sequence && !Has(ivs, sequence)
    ensures AllValid(r) && |r| > 0
    ensures forall n :: Has(r, n) <==> Has(ivs, n) || n == sequence
    ensures AllCovered(r, ivs)
    ensures Ordered(ivs) ==> Ordered(r)
    ensures Canonical(ivs) ==> Canonical(r)
  {
    hide InsertAdds, InsertOrders, InsertInv, Append, Place;
    r := [];
    var added := false;
    InsertStarts(ivs, sequence);
    for k := 0 to |ivs|
      invariant InsertAdds(ivs, sequence, k, r, added)
      invariant Ordered(ivs) ==> InsertOrders(ivs, sequence, k, r, added)
      invariant Canonical(ivs) ==> InsertInv(ivs, sequence, k, r, added)
    {
      var iv := ivs[k];
      InsertNext(ivs, sequence, k, r, added);
      if !added {
        var (before, iv', placed) := Place(iv, sequence);
        r, iv, added := r + before, iv', placed;
      }
      r := Append(r, iv);
    }
    InsertEnds(ivs, sequence, r, added);
    if !added {
      r := r + [Interval(sequence, sequence)];
    }
  }

  lemma InsertStarts(ivs: seq<Interval>, sequence: int64)
    ensures InsertAdds(ivs, sequence, 0, [], false)
    ensures InsertOrders(ivs, sequence, 0, [], false)
    ensures InsertInv(ivs, sequence, 0, [], false)
  {
  }

  /** All three, for one interval. */
  lemma InsertNext(ivs: seq<Interval>, sequence: int64, k: int, r: seq<Interval>, added: bool)
    requires AllValid(ivs) && 1 <= sequence && !Has(ivs, sequence) && 0 <= k < |ivs|
    requires InsertAdds(ivs, sequence, k, r, added)
    requires Ordered(ivs) ==> InsertOrders(ivs, sequence, k, r, added)
    requires Canonical(ivs) ==> InsertInv(ivs, sequence, k, r, added)
    ensures var (before, iv, placed) := if added then ([], ivs[k], true) else Place(ivs[k], sequence);
            var r' := Append(if added then r else r + before, iv);
            && InsertAdds(ivs, sequence, k + 1, r', placed)
            && (Ordered(ivs) ==> InsertOrders(ivs, sequence, k + 1, r', placed))
            && (Canonical(ivs) ==> InsertInv(ivs, sequence, k + 1, r', placed))
  {
    hide InsertAdds, InsertOrders, InsertInv, Append, Place, Has;
    assert r + [] == r;
    InsertAddsNext(ivs, sequence, k, r, added);
    if Ordered(ivs) {
      InsertOrdersNext(ivs, sequence, k, r, added);
    }
    if Canonical(ivs) {
      if added {
        InsertCopy(ivs, sequence, k, r);
      } else {
        InsertPlace(ivs, sequence, k, r);
      }
    }
  }

  /** After the last interval, with the number appended if it was not placed. */
  lemma InsertEnds(ivs: seq<Interval>, sequence: int64, r: seq<Interval>, added: bool)
    requires 1 <= sequence && InsertAdds(ivs, sequence, |ivs|, r, added)
    requires Ordered(ivs) ==> InsertOrders(ivs, sequence, |ivs|, r, added)
    requires Canonical(ivs) ==> InsertInv(ivs, sequence, |ivs|, r, added)
    ensures var r' := if added then r else r + [Interval(sequence, sequence)];
            && AllValid(r') && |r'| > 0 && AllCovered(r', ivs)
            && (forall n :: Has(r', n) <==> Has(ivs, n) || n == sequence)
            && (Ordered(ivs) ==> Ordered(r')) && (Canonical(ivs) ==> Canonical(r'))
  {
    hide InsertOrders, InsertInv, Has;
    assert ivs[..|ivs|] == ivs;
    if !added {
      var single := Interval(sequence, sequence);
      HasSnoc(r, single);
      CoveredLonger(r, r + [single]);
      if Ordered(ivs) {
        EndOrders(ivs, sequence, r);
      }
      if Canonical(ivs) {
        EndGaps(ivs, sequence, r);
      }
    } else {
      EndPlaced(ivs, sequence, r);
    }
  }

  lemma EndPlaced(ivs: seq<Interval>, sequence: int64, r: seq<Interval>)
    requires InsertAdds(ivs, sequence, |ivs|, r, true)
    ensures r != []
    ensures InsertOrders(ivs, sequence, |ivs|, r, true) ==> Ordered(r)
    ensures InsertInv(ivs, sequence, |ivs|, r, true) ==> Canonical(r)
  {
    assert Has(r, sequence);
  }

  lemma EndOrders(ivs: seq<Interval>, sequence: int64, r: seq<Interval>)
    requires Ordered(ivs) && 1 <= sequence && InsertOrders(ivs, sequence, |ivs|, r, false)
    ensures Ordered(r + [Interval(sequence, sequence)])
  {
    SnocOrders(r, Interval(sequence, sequence));
  }

  lemma EndGaps(ivs: seq<Interval>, sequence: int64, r: seq<Interval>)
    requires Canonical(ivs) && 1 <= sequence && InsertInv(ivs, sequence, |ivs|, r, false)
    ensures Canonical(r + [Interval(sequence, sequence)])
  {
  }

  // ----- TrimGTIDSet -----

  /**
   The body of `TrimGTIDSet` for one server present in both sets; `limit` is the end of the receiver's last interval.
   */
  method Cut(b: seq<Interval>, limit: int64) returns (r: seq<Interval>)
    requires Ordered(b)
    ensures forall n :: Has(r, n) <==> Has(b, n) && n <= limit
    ensures Canonical(b) ==> Canonical(r)
  {
    r := [];
    for k := 0 to |b|
      invariant |r| == k && forall m :: 0 <= m < k ==>
          r[m].Valid() && r[m].start == b[m].start && r[m].end == Min(b[m].end, limit)
    {
      if b[k].end < limit {
        r := r + [b[k]];
      } else if b[k].start <= limit {
        r := r + [b[k].(end := Min(b[k].end, limit))];
      } else {
        CutExact(b, r, k, limit);
        return;
      }
    }
    CutExact(b, r, |b|, limit);
  }

  lemma CutExact(b: seq<Interval>, r: seq<Interval>, k: int, limit: int64)
    requires Ordered(b) && 0 <= k <= |b| && |r| == k
    requires forall m :: 0 <= m < k ==> r[m].Valid() && r[m].start == b[m].start && r[m].end == Min(b[m].end, limit)
    requires k < |b| ==> b[k].start > limit
    ensures forall n :: Has(r, n) <==> Has(b, n) && n <= limit
    ensures Canonical(b) ==> Canonical(r)
  {
    forall n
      ensures Has(r, n) <==> Has(b, n) && n <= limit
    {
      if Has(b, n) && n <= limit {
        var m :| 0 <= m < |b| && b[m].Holds(n);
        assert m < k;
        assert r[m].Holds(n);
      }
      if Has(r, n) {
        var m :| 0 <= m < |r| && r[m].Holds(n);
        assert b[m].Holds(n);
      }
    }
  }

  /** `n` comes before the first interval or between two neighbours. */
  ghost predicate InGap(a: seq<Interval>, n: int)
    requires a != []
  {
    n < a[0].start || exists k :: 0 <= k < |a| - 1 && a[k].end < n < a[k + 1].start
  }

  lemma GapBeforeEnd(a: seq<Interval>, n: int)
    requires Disjoint(a) && a != []
    ensures InGap(a, n) ==> n < a[|a| - 1].end
  {
    assert a[0].Valid() && a[|a| - 1].Valid();
    if n >= a[0].start && InGap(a, n) {
      var k :| 0 <= k < |a| - 1 && a[k].end < n < a[k + 1].start;
      assert k + 1 < |a| - 1 ==> a[k + 1].end < a[|a| - 1].start;
      assert a[k + 1].Valid();
    }
  }

  /** A number up to the end of a disjoint list is in the list or in a gap of it. */
  lemma {:induction false} InListOrGap(a: seq<Interval>, n: int)
    requires Disjoint(a) && a != [] && n <= a[|a| - 1].end
    ensures Has(a, n) <==> !InGap(a, n)
  {
    if InGap(a, n) {
      forall k | 0 <= k < |a|
        ensures !a[k].Holds(n)
      {
        if n >= a[0].start {
          var m :| 0 <= m < |a| - 1 && a[m].end < n < a[m + 1].start;
          assert k <= m ==> a[k].end <= a[m].end;
          assert k > m ==> a[m + 1].start <= a[k].start;
        }
      }
    } else {
      var k := FirstReaching(a, n);
      assert k > 0 ==> a[k - 1].end < n;
      assert a[k].Holds(n);
    }
  }

  lemma FirstReaching(a: seq<Interval>, n: int) returns (k: nat)
    requires a != [] && n <= a[|a| - 1].end
    ensures k < |a| && n <= a[k].end && forall m :: 0 <= m < k ==> a[m].end < n
  {
    k := 0;
    while a[k].end < n
      invariant k < |a| && forall m :: 0 <= m < k ==> a[m].end < n
      decreases |a| - k
    {
      k := k + 1;
    }
  }
}
