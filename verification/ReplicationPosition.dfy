/** Replication positions over GTID sets, and the search for errant transactions. */
module ReplicationPosition {
  import opened GtidDifference
  import opened GtidIntervals
  import opened GtidSets

  /** A position wraps a GTID set that may be nil. */
  datatype Position = Position(gtidSet: GtidSet)

  /** A position without a set, or with a MySQL 5.6 set as the parser yields them. */
  ghost predicate Readable(p: Position) {
    p.gtidSet.NoSet? || (p.gtidSet.Mysql56? && OrderedSet(p.gtidSet.sids))
  }

  /** A position without a set, or with a canonical MySQL 5.6 set. */
  ghost predicate Sound(p: Position) {
    p.gtidSet.NoSet? || (p.gtidSet.Mysql56? && CanonicalSet(p.gtidSet.sids))
  }

  ghost predicate UnbrokenPosition(p: Position) {
    p.gtidSet.Mysql56? ==> UnbrokenSet(p.gtidSet.sids)
  }

  lemma SoundIsReadable(p: Position)
    requires Sound(p)
    ensures Readable(p) && UnbrokenPosition(p)
  {
    if p.gtidSet.Mysql56? {
      CanonicalSetIsDisjoint(p.gtidSet.sids);
    }
  }

  /** The order on positions: nothing is before everything, then inclusion of transactions. */
  ghost predicate Reached(p: Position, q: Position) {
    || q.gtidSet.NoSet?
    || (p.gtidSet.Mysql56? && q.gtidSet.Mysql56? && Denote(q.gtidSet.sids) <= Denote(p.gtidSet.sids))
  }

  /** The same with intervals inside single intervals, which is what the code compares. */
  ghost predicate Spans(p: Position, q: Position) {
    || q.gtidSet.NoSet?
    || (p.gtidSet.Mysql56? && q.gtidSet.Mysql56? && CoversSet(p.gtidSet.sids, q.gtidSet.sids))
  }

  lemma SpansIsReached(p: Position, q: Position)
    requires Readable(p) && Readable(q) && UnbrokenPosition(p)
    ensures Spans(p, q) <==> Reached(p, q)
  {
    if p.gtidSet.Mysql56? && q.gtidSet.Mysql56? {
      CoversSetIsSubset(p.gtidSet.sids, q.gtidSet.sids);
    }
  }

  /**
   The two agree for every other position if and only if touching intervals of this one are spanned by a single one.
   */
  lemma AtLeastExact(p: Position)
    requires Readable(p)
    ensures (forall q | Readable(q) :: Spans(p, q) <==> Reached(p, q)) <==> UnbrokenPosition(p)
  {
    hide CoversSet, Denote, UnbrokenSet, OrderedSet;
    if UnbrokenPosition(p) {
      forall q | Readable(q)
        ensures Spans(p, q) <==> Reached(p, q)
      {
        SpansIsReached(p, q);
      }
    } else {
      ContainsExact(p.gtidSet.sids);
      var b: Mysql56GtidSet :| OrderedSet(b)
          && !(CoversSet(p.gtidSet.sids, b) <==> Denote(b) <= Denote(p.gtidSet.sids));
      assert Readable(Position(Mysql56(b)));
    }
  }

  method Equal(p: Position, q: Position) returns (r: bool)
    requires Sound(p) && Sound(q)
    ensures r <==> p == q
    ensures r <==> Reached(p, q) && Reached(q, p)
  {
    ReachedAntisymmetric(p, q);
    if p.gtidSet.NoSet? {
      return q.gtidSet.NoSet?;
    }
    r := GtidSets.Equal(p.gtidSet.sids, q.gtidSet);
  }

  method AtLeast(p: Position, q: Position) returns (r: bool)
    requires Readable(p) && Readable(q)
    ensures r <==> Spans(p, q)
    ensures UnbrokenPosition(p) ==> (r <==> Reached(p, q))
  {
    if UnbrokenPosition(p) {
      SpansIsReached(p, q);
    }
    if q.gtidSet.NoSet? {
      return true;
    }
    if p.gtidSet.NoSet? {
      return false;
    }
    r := Contains(p.gtidSet.sids, q.gtidSet);
  }

  /** `AtLeast` is antisymmetric: positions that have reached each other are equal. */
  lemma ReachedAntisymmetric(p: Position, q: Position)
    requires Sound(p) && Sound(q)
    ensures Reached(p, q) && Reached(q, p) <==> p == q
  {
    if p.gtidSet.Mysql56? && q.gtidSet.Mysql56? {
      CanonicalSetUnique(p.gtidSet.sids, q.gtidSet.sids);
    }
  }

  lemma ReachedTransitive(p: Position, q: Position, s: Position)
    requires Sound(p) && Sound(q) && Sound(s) && Reached(p, q) && Reached(q, s)
    ensures Reached(p, s)
  {
  }

  /** The position after a transaction: exactly one more transaction, and never behind, as `AtLeast` sees it too. */
  method AppendGTID(p: Position, gtid: GtidValue) returns (r: Position)
    requires Readable(p) && (gtid.Mysql56Gtid? ==> 1 <= gtid.sequence)
    requires gtid.OtherGtid? ==> p.gtidSet.Mysql56?
    ensures Readable(r) && Reached(r, p) && Spans(r, p)
    ensures Sound(p) ==> Sound(r)
    ensures !gtid.Mysql56Gtid? ==> r == p
    ensures gtid.Mysql56Gtid? ==>
              && r.gtidSet.Mysql56?
              && Denote(r.gtidSet.sids)
                 == (if p.gtidSet.Mysql56? then Denote(p.gtidSet.sids) else iset{})
                     + iset{Gtid(gtid.server, gtid.sequence)}
  {
    hide CoversSet, OrderedSet, CanonicalSet;
    if gtid.NoGtid? {
      r := p;
      if p.gtidSet.Mysql56? {
        CoversItself(p.gtidSet.sids);
      }
      return;
    }
    var before: Mysql56GtidSet := if p.gtidSet.NoSet? then map[] else p.gtidSet.sids;
    assert p.gtidSet.NoSet? ==> Denote(before) == iset{};
    EmptySetIs();
    var after := AddGTID(before, gtid);
    r := Position(Mysql56(after));
  }

  lemma EmptySetIs()
    ensures OrderedSet(map[]) && CanonicalSet(map[])
  {
  }

  ghost predicate ComparablePair(p: Position, q: Position) {
    Reached(p, q) || Reached(q, p)
  }

  /** All pairs are compared; the positions must not be nil, as the source dereferences them. */
  method AllPositionsComparable(positions: seq<Position>) returns (r: bool)
    requires forall i :: 0 <= i < |positions| ==> Readable(positions[i]) && positions[i].gtidSet.Mysql56?
    ensures r <==> forall i, j :: 0 <= i < j < |positions| ==>
        Spans(positions[i], positions[j]) || Spans(positions[j], positions[i])
    ensures (forall i :: 0 <= i < |positions| ==> UnbrokenPosition(positions[i])) ==>
              (r <==> forall i, j :: 0 <= i < |positions| && 0 <= j < |positions| ==>
                  ComparablePair(positions[i], positions[j]))
  {
    hide Spans, Readable, UnbrokenPosition;
    r := ComparePairs(positions);
    if forall i :: 0 <= i < |positions| ==> UnbrokenPosition(positions[i]) {
      ComparesAll(positions);
    }
  }

  method ComparePairs(positions: seq<Position>) returns (r: bool)
    requires forall i :: 0 <= i < |positions| ==> Readable(positions[i]) && positions[i].gtidSet.Mysql56?
    ensures r <==> forall i, j :: 0 <= i < j < |positions| ==>
        Spans(positions[i], positions[j]) || Spans(positions[j], positions[i])
  {
    hide CoversSet, OrderedSet, Denote, UnbrokenSet;
    for i := 0 to |positions|
      invariant forall k, j :: 0 <= k < i && k < j < |positions| ==>
          Spans(positions[k], positions[j]) || Spans(positions[j], positions[k])
    {
      for j := i + 1 to |positions|
        invariant forall k :: i < k < j ==> Spans(positions[i], positions[k]) || Spans(positions[k], positions[i])
      {
        var ahead := Contains(positions[i].gtidSet.sids, positions[j].gtidSet);
        if !ahead {
          var behind := Contains(positions[j].gtidSet.sids, positions[i].gtidSet);
          if !behind {
            assert !Spans(positions[i], positions[j]) && !Spans(positions[j], positions[i]);
            return false;
          }
        }
      }
    }
    return true;
  }

  lemma ComparesAll(positions: seq<Position>)
    requires forall i :: 0 <= i < |positions| ==> Readable(positions[i]) && UnbrokenPosition(positions[i])
    requires forall i :: 0 <= i < |positions| ==> positions[i].gtidSet.Mysql56?
    ensures (forall i, j :: 0 <= i < j < |positions| ==>
               Spans(positions[i], positions[j]) || Spans(positions[j], positions[i]))
            <==> (forall i, j :: 0 <= i < |positions| && 0 <= j < |positions| ==>
                    ComparablePair(positions[i], positions[j]))
  {
    hide Spans, Readable, UnbrokenPosition, Denote;
    forall i, j | 0 <= i < |positions| && 0 <= j < |positions|
      ensures Spans(positions[i], positions[j]) <==> Reached(positions[i], positions[j])
    {
      SpansIsReached(positions[i], positions[j]);
    }
    forall i | 0 <= i < |positions|
      ensures ComparablePair(positions[i], positions[i])
    {
    }
    hide ComparablePair;
    assert forall i, j :: 0 <= i < j < |positions| ==>
      (ComparablePair(positions[i], positions[j]) <==> ComparablePair(positions[j], positions[i])) by {
      forall i, j | 0 <= i < j < |positions|
        ensures ComparablePair(positions[i], positions[j]) <==> ComparablePair(positions[j], positions[i])
      {
        ComparableEitherWay(positions[i], positions[j]);
      }
    }
  }

  lemma ComparableEitherWay(p: Position, q: Position)
    ensures ComparablePair(p, q) <==> ComparablePair(q, p)
    ensures ComparablePair(p, q) <==> Reached(p, q) || Reached(q, p)
  {
  }

  /** Among comparable positions one has reached all the others. */
  lemma {:induction false} MostAdvanced(positions: seq<Position>) returns (top: nat)
    requires positions != []
    requires forall i :: 0 <= i < |positions| ==> Sound(positions[i])
    requires forall i, j :: 0 <= i < |positions| && 0 <= j < |positions| ==> ComparablePair(positions[i], positions[j])
    ensures top < |positions| && forall i :: 0 <= i < |positions| ==> Reached(positions[top], positions[i])
    decreases |positions|
  {
    var n := |positions| - 1;
    if n == 0 {
      top := 0;
      assert ComparablePair(positions[0], positions[0]);
    } else {
      var front := positions[..n];
      var t := MostAdvanced(front);
      assert ComparablePair(positions[t], positions[n]);
      top := if Reached(positions[t], positions[n]) then t else n;
      assert ComparablePair(positions[top], positions[top]);
      forall i | 0 <= i < |positions|
        ensures Reached(positions[top], positions[i])
      {
        if i < n {
          assert front[i] == positions[i];
          ReachedTransitive(positions[top], positions[t], positions[i]);
        }
      }
    }
  }

  // ----- FindErrantGTIDs -----

  /** The part of a replication status that the search reads. */
  datatype ReplicationStatus = ReplicationStatus(relayLogPosition: Position, sourceUuid: SID)

  datatype ErrantResult = NotMysql | Found(errant: GtidSet)

  /** A transaction of the receiver's relay log that no source or other replica accounts for. */
  ghost predicate Errant(s: ReplicationStatus, others: seq<ReplicationStatus>, g: Gtid)
    requires s.relayLogPosition.gtidSet.Mysql56?
    requires forall i :: 0 <= i < |others| ==> others[i].relayLogPosition.gtidSet.Mysql56?
  {
    && g in Denote(s.relayLogPosition.gtidSet.sids)
    && g.server != s.sourceUuid
    && forall i :: 0 <= i < |others| ==> g !in Denote(others[i].relayLogPosition.gtidSet.sids)
  }

  lemma KnownIsNotErrant(s: ReplicationStatus, other: ReplicationStatus, g: Gtid)
    requires s.relayLogPosition.gtidSet.Mysql56? && other.relayLogPosition.gtidSet.Mysql56?
    requires g in Denote(other.relayLogPosition.gtidSet.sids)
    ensures !Errant(s, [other], g)
  {
    hide Denote;
    assert [other][0] == other;
  }

  /** The receiver's relay log without the transactions of its source. */
  function WithoutSource(s: ReplicationStatus): (r: Mysql56GtidSet)
    requires s.relayLogPosition.gtidSet.Mysql56?
    ensures forall g :: g in Denote(r) <==> Errant(s, [], g)
  {
    var relayLogSet := s.relayLogPosition.gtidSet.sids;
    map sid | sid in relayLogSet && sid != s.sourceUuid :: relayLogSet[sid]
  }

  /** What the search reports; nil stands for no transaction. */
  function Reported(r: ErrantResult): Mysql56GtidSet {
    if r.Found? && r.errant.Mysql56? then r.errant.sids else map[]
  }

  /** `chain` takes the relay logs of the first `i` replicas from `start`, one after the other, as `Difference` does. */
  ghost predicate Chained(start: Mysql56GtidSet, others: seq<ReplicationStatus>, i: nat, chain: seq<Mysql56GtidSet>)
    requires i <= |others| && forall k :: 0 <= k < i ==> others[k].relayLogPosition.gtidSet.Mysql56?
  {
    && |chain| == i + 1 && chain[0] == start
    && forall k :: 0 <= k < i ==> IsDifference(chain[k], others[k].relayLogPosition.gtidSet.sids, chain[k + 1])
  }

  lemma ChainedNext(start: Mysql56GtidSet, others: seq<ReplicationStatus>, i: nat, chain: seq<Mysql56GtidSet>,
                    next: Mysql56GtidSet)
    requires i < |others| && forall k :: 0 <= k <= i ==> others[k].relayLogPosition.gtidSet.Mysql56?
    requires Chained(start, others, i, chain) && IsDifference(chain[i], others[i].relayLogPosition.gtidSet.sids, next)
    ensures Chained(start, others, i + 1, chain + [next])
  {
    hide IsDifference;
  }

  /**
   Every errant transaction is reported. Nothing else is, if no interval of the relay log begins before an earlier one
   ends; otherwise a single other replica can already make the search report a transaction that replica has.
   */
  method FindErrantGTIDs(s: ReplicationStatus, others: seq<ReplicationStatus>)
    returns (r: ErrantResult, ghost chain: seq<Mysql56GtidSet>)
    requires s.relayLogPosition.gtidSet.Mysql56? ==>
               ValidSet(s.relayLogPosition.gtidSet.sids) && NoEmptyList(s.relayLogPosition.gtidSet.sids)
    requires forall i :: 0 <= i < |others| ==>
               others[i].relayLogPosition.gtidSet.Mysql56? && Filled(others[i].relayLogPosition.gtidSet.sids)
    ensures others == [] ==> r == Found(NoSet)
    ensures others != [] ==> (r == NotMysql <==> !s.relayLogPosition.gtidSet.Mysql56?)
    ensures r == Found(NoSet) <==> r.Found? && Denote(Reported(r)) == iset{}
    ensures others != [] && s.relayLogPosition.gtidSet.Mysql56? ==>
              && (forall g :: Errant(s, others, g) ==> g in Denote(Reported(r)))
              && (SuccessiveSet(WithoutSource(s)) ==> Denote(Reported(r)) == iset g | Errant(s, others, g))
              && KeepsSetShape(WithoutSource(s), Reported(r)) && NoEmptyList(Reported(r))
              && Chained(WithoutSource(s), others, |others|, chain) && chain[|others|] == Reported(r)
  {
    hide KeepsSetShape, IsDifference, Denote, LosesHead, MissesShared;
    chain := [];
    if |others| == 0 {
      r := Found(NoSet);
      EmptyIffNoTransactions(Reported(r));
      return;
    }
    if !s.relayLogPosition.gtidSet.Mysql56? {
      return NotMysql, chain;
    }
    var diffSet := WithoutSource(s);
    assert others[..0] == [];
    ShapeReflexive(diffSet);
    chain := [diffSet];
    for i := 0 to |others|
      invariant ValidSet(diffSet) && KeepsSetShape(WithoutSource(s), diffSet) && NoEmptyList(diffSet)
      invariant forall g :: Errant(s, others[..i], g) ==> g in Denote(diffSet)
      invariant SuccessiveSet(WithoutSource(s)) ==> forall g :: g in Denote(diffSet) <==> Errant(s, others[..i], g)
      invariant Chained(WithoutSource(s), others, i, chain) && chain[i] == diffSet
    {
      ghost var before := diffSet;
      diffSet := Difference(diffSet, others[i].relayLogPosition.gtidSet.sids);
      ChainedNext(WithoutSource(s), others, i, chain, diffSet);
      chain := chain + [diffSet];
      ErrantNext(s, others, i, before, diffSet);
      ShapeTransitive(WithoutSource(s), before, diffSet);
    }
    assert others[..|others|] == others;
    EmptyIffNoTransactions(diffSet);
    EmptyIffNoTransactions(map[]);
    if |diffSet| == 0 {
      assert diffSet == map[];
      return Found(NoSet), chain;
    }
    return Found(Mysql56(diffSet)), chain;
  }

  /** A relay log `1-10:2-10` and a replica that has `5`: the search reports `5`, which is not errant. */
  method ReportsNotErrant(sid: SID, source: SID) returns (r: ErrantResult)
    requires sid != source
    ensures var (a, b) := Overlapping(sid);
            && Filled(a) && CanonicalSet(b)
            && !Errant(ReplicationStatus(Position(Mysql56(a)), source),
                       [ReplicationStatus(Position(Mysql56(b)), source)], Gtid(sid, 5))
    ensures Gtid(sid, 5) in Denote(Reported(r))
  {
    var (a, b) := Overlapping(sid);
    OverlappingSets(sid);
    CanonicalSetIsDisjoint(b);
    var s := ReplicationStatus(Position(Mysql56(a)), source);
    var other := ReplicationStatus(Position(Mysql56(b)), source);
    assert WithoutSource(s) == a;
    hide *;
    KnownIsNotErrant(s, other, Gtid(sid, 5));
    r := SearchAgainst(s, other);
    OverlapKept(sid, Reported(r));
  }

  /** The search against a single other replica. */
  method SearchAgainst(s: ReplicationStatus, other: ReplicationStatus) returns (r: ErrantResult)
    requires s.relayLogPosition.gtidSet.Mysql56? && ValidSet(s.relayLogPosition.gtidSet.sids)
    requires NoEmptyList(s.relayLogPosition.gtidSet.sids)
    requires other.relayLogPosition.gtidSet.Mysql56? && Filled(other.relayLogPosition.gtidSet.sids)
    ensures IsDifference(WithoutSource(s), other.relayLogPosition.gtidSet.sids, Reported(r))
  {
    hide IsDifference, Denote, KeepsSetShape, ValidSet, NoEmptyList, Filled, Errant, WithoutSource, Reported;
    ghost var chain;
    r, chain := FindErrantGTIDs(s, [other]);
  }

  /**
   Any relay log where an interval begins before an earlier one ends: one replica makes the search report too much.
   */
  method OverlapReports(s: ReplicationStatus) returns (other: ReplicationStatus, g: Gtid, r: ErrantResult)
    requires s.relayLogPosition.gtidSet.Mysql56? && ValidSet(s.relayLogPosition.gtidSet.sids)
    requires NoEmptyList(s.relayLogPosition.gtidSet.sids) && !SuccessiveSet(WithoutSource(s))
    ensures other.relayLogPosition.gtidSet.Mysql56? && CanonicalSet(other.relayLogPosition.gtidSet.sids)
    ensures g in Denote(other.relayLogPosition.gtidSet.sids) && !Errant(s, [other], g)
    ensures g in Denote(Reported(r))
  {
    var relay := WithoutSource(s);
    var sid :| sid in relay && !Successive(relay[sid]);
    var ivs := relay[sid];
    assert AllValid(ivs);
    var j, k :| 0 <= j < k < |ivs| && ivs[j].end > ivs[k].start;
    g := Gtid(sid, ivs[k].start);
    var one: Mysql56GtidSet := map[sid := [Interval(ivs[k].start, ivs[k].start)]];
    other := ReplicationStatus(Position(Mysql56(one)), s.sourceUuid);
    OneTransaction(one, sid, ivs[k].start);
    KnownIsNotErrant(s, other, g);
    r := SearchAgainst(s, other);
    OverlapKeeps(relay, one, sid, j, k, Reported(r));
  }

  lemma OneTransaction(one: Mysql56GtidSet, sid: SID, n: int64)
    requires n >= 1 && one == map[sid := [Interval(n, n)]]
    ensures CanonicalSet(one) && Filled(one) && Gtid(sid, n) in Denote(one)
  {
    assert one[sid][0].Holds(n);
  }

  lemma OverlapKeeps(relay: Mysql56GtidSet, one: Mysql56GtidSet, sid: SID, j: nat, k: nat, r: Mysql56GtidSet)
    requires ValidSet(relay) && sid in relay && j < k < |relay[sid]| && relay[sid][j].end > relay[sid][k].start
    requires one == map[sid := [Interval(relay[sid][k].start, relay[sid][k].start)]] && IsDifference(relay, one, r)
    ensures Gtid(sid, relay[sid][k].start) in Denote(r)
  {
    var ivs, n := relay[sid], relay[sid][k].start;
    assert DifferenceAt(relay, one, sid, r);
    LaterKept(ivs, j, k, one[sid]);
    assert Holds(r, sid, n);
  }

  lemma ShapeReflexive(m: Mysql56GtidSet)
    requires ValidSet(m)
    ensures KeepsSetShape(m, m)
  {
  }

  lemma ShapeTransitive(a: Mysql56GtidSet, b: Mysql56GtidSet, c: Mysql56GtidSet)
    requires KeepsSetShape(a, b) && KeepsSetShape(b, c) && NoEmptyList(b)
    ensures ValidSet(c) && KeepsSetShape(a, c)
  {
  }

  /** What one more replica takes from the search. */
  lemma ErrantNext(s: ReplicationStatus, others: seq<ReplicationStatus>, i: nat, before: Mysql56GtidSet,
                   after: Mysql56GtidSet)
    requires s.relayLogPosition.gtidSet.Mysql56? && i < |others|
    requires forall k :: 0 <= k < |others| ==>
               others[k].relayLogPosition.gtidSet.Mysql56? && Filled(others[k].relayLogPosition.gtidSet.sids)
    requires ValidSet(before) && KeepsSetShape(WithoutSource(s), before)
    requires forall g :: Errant(s, others[..i], g) ==> g in Denote(before)
    requires SuccessiveSet(WithoutSource(s)) ==> forall g :: g in Denote(before) <==> Errant(s, others[..i], g)
    requires var other := others[i].relayLogPosition.gtidSet.sids;
             && (Denote(before) - Denote(other) <= Denote(after) <==> !LosesHead(before, other))
             && (Denote(after) <= Denote(before) - Denote(other) <==> !MissesShared(before, other))
    ensures forall g :: Errant(s, others[..i + 1], g) ==> g in Denote(after)
    ensures SuccessiveSet(WithoutSource(s)) ==> forall g :: g in Denote(after) <==> Errant(s, others[..i + 1], g)
  {
    hide Denote, MissesShared;
    var other := others[i].relayLogPosition.gtidSet.sids;
    assert others[..i + 1] == others[..i] + [others[i]];
    assert !LosesHead(before, other);
    if SuccessiveSet(WithoutSource(s)) {
      NeverMissesShared(before);
    }
  }

  lemma EmptyIffNoTransactions(m: Mysql56GtidSet)
    requires ValidSet(m) && NoEmptyList(m)
    ensures |m| == 0 <==> Denote(m) == iset{}
  {
    if |m| != 0 {
      var sid :| sid in m;
      assert m[sid][0].Valid() && m[sid][0].Holds(m[sid][0].start);
      DenoteIs(m, sid, m[sid][0].start);
    }
  }
}
