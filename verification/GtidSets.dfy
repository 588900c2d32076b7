/** MySQL 5.6 GTID sets: interval lists by server, read as sets of transactions. */
module GtidSets {
  import opened Bytes
  import opened GtidDifference
  import opened GtidIntervals
  import opened GtidSweeps

  /** The ID of a server: 16 bytes. */
  datatype SID = SID(bytes: seq<byte>) {
    predicate Valid() {
      |bytes| == 16
    }
  }

  /** One transaction. */
  datatype Gtid = Gtid(server: SID, sequence: int)

  type Mysql56GtidSet = map<SID, seq<Interval>>

  /** A `GTIDSet` interface value: nil, a MySQL 5.6 set, or a set of another flavour. */
  datatype GtidSet = NoSet | Mysql56(sids: Mysql56GtidSet) | OtherFlavor(name: string)

  /** A `GTID` interface value. */
  datatype GtidValue = NoGtid | Mysql56Gtid(server: SID, sequence: int64) | OtherGtid(text: string)

  // ----- meaning -----

  ghost predicate Holds(m: Mysql56GtidSet, sid: SID, n: int) {
    sid in m && Has(m[sid], n)
  }

  /** The transactions a set stands for. */
  ghost function Denote(m: Mysql56GtidSet): iset<Gtid> {
    iset g: Gtid | Holds(m, g.server, g.sequence)
  }

  /** What the parser yields. */
  ghost predicate OrderedSet(m: Mysql56GtidSet) {
    forall sid :: sid in m ==> Ordered(m[sid])
  }

  /** Every list of the set is ordered and has an interval. */
  ghost predicate Filled(m: Mysql56GtidSet) {
    forall sid :: sid in m ==> Ordered(m[sid]) && m[sid] != []
  }

  ghost predicate ValidSet(m: Mysql56GtidSet) {
    forall sid :: sid in m ==> AllValid(m[sid])
  }

  ghost predicate NoEmptyList(m: Mysql56GtidSet) {
    forall sid :: sid in m ==> m[sid] != []
  }

  ghost predicate SuccessiveSet(m: Mysql56GtidSet) {
    forall sid :: sid in m ==> Successive(m[sid])
  }

  ghost predicate DisjointSet(m: Mysql56GtidSet) {
    forall sid :: sid in m ==> Disjoint(m[sid])
  }

  /** Wherever two intervals of a server overlap or touch, a single one spans both. */
  ghost predicate UnbrokenSet(m: Mysql56GtidSet) {
    forall sid :: sid in m ==> Unbroken(m[sid])
  }

  ghost predicate CanonicalSet(m: Mysql56GtidSet) {
    forall sid :: sid in m ==> m[sid] != [] && Canonical(m[sid])
  }

  lemma CanonicalSetIsDisjoint(m: Mysql56GtidSet)
    requires CanonicalSet(m)
    ensures DisjointSet(m) && OrderedSet(m) && NoEmptyList(m) && UnbrokenSet(m)
  {
    forall sid | sid in m
      ensures Disjoint(m[sid]) && Ordered(m[sid]) && Unbroken(m[sid])
    {
      CanonicalIsDisjoint(m[sid]);
      DisjointUnbroken(m[sid]);
    }
  }

  lemma DenoteIs(m: Mysql56GtidSet, sid: SID, n: int)
    ensures Gtid(sid, n) in Denote(m) <==> Holds(m, sid, n)
  {
  }

  /** Canonical form is unique: two canonical sets of the same transactions are the same map. */
  lemma CanonicalSetUnique(a: Mysql56GtidSet, b: Mysql56GtidSet)
    requires CanonicalSet(a) && CanonicalSet(b)
    ensures a == b <==> Denote(a) == Denote(b)
  {
    if Denote(a) == Denote(b) {
      SameServers(a, b);
      SameServers(b, a);
      forall sid | sid in a
        ensures a[sid] == b[sid]
      {
        forall n
          ensures Has(a[sid], n) <==> Has(b[sid], n)
        {
          DenoteIs(a, sid, n);
          DenoteIs(b, sid, n);
        }
        CanonicalUnique(a[sid], b[sid]);
      }
    }
  }

  lemma SameServers(a: Mysql56GtidSet, b: Mysql56GtidSet)
    requires CanonicalSet(a) && CanonicalSet(b) && Denote(a) == Denote(b)
    ensures a.Keys <= b.Keys
  {
    forall sid | sid in a
      ensures sid in b
    {
      var n := a[sid][0].start;
      assert a[sid][0].Valid();
      assert a[sid][0].Holds(n);
      DenoteIs(a, sid, n);
      DenoteIs(b, sid, n);
    }
  }

  // ----- Difference -----

  /** A shared server has an empty list in `other`, and the head of its own list holds a number the rest does not. */
  ghost predicate LosesHead(set56: Mysql56GtidSet, other: Mysql56GtidSet) {
    exists sid :: sid in set56 && sid in other && other[sid] == [] && HeadMatters(set56[sid])
  }

  /** The sweep over some shared server's lists misses a number of `other`. */
  ghost predicate MissesShared(set56: Mysql56GtidSet, other: Mysql56GtidSet) {
    exists sid :: sid in set56 && sid in other && Misses(set56[sid], other[sid])
  }

  /** What `Difference` leaves for one server of the receiver. */
  ghost predicate DifferenceAt(set56: Mysql56GtidSet, other: Mysql56GtidSet, sid: SID, r: Mysql56GtidSet)
    requires sid in set56
  {
    if sid !in other then sid in r && r[sid] == set56[sid]
    else if other[sid] != [] then
      if sid in r then r[sid] != [] && Swept(set56[sid], other[sid], r[sid])
      else forall n :: !Survives(set56[sid], other[sid], |set56[sid]|, n)
    else if set56[sid] == [] then sid !in r
    else sid in r && r[sid] == set56[sid][1..]
  }

  ghost predicate IsDifference(set56: Mysql56GtidSet, other: Mysql56GtidSet, r: Mysql56GtidSet) {
    r.Keys <= set56.Keys && forall sid :: sid in set56 ==> DifferenceAt(set56, other, sid, r)
  }

  /** `Difference` denotes set difference exactly when it neither loses a head nor misses an overlap. */
  method Difference(set56: Mysql56GtidSet, other: Mysql56GtidSet) returns (r: Mysql56GtidSet)
    requires ValidSet(set56) && OrderedSet(other)
    ensures IsDifference(set56, other, r)
    ensures Denote(set56) - Denote(other) <= Denote(r) <==> !LosesHead(set56, other)
    ensures Denote(r) <= Denote(set56) - Denote(other) <==> !MissesShared(set56, other)
    ensures KeepsSetShape(set56, r)
    ensures NoEmptyList(set56) && NoEmptyList(other) ==> NoEmptyList(r)
  {
    hide Swept, Survives, KeepsSetShape, LosesHead, MissesShared;
    r := map[];
    var todo := set56.Keys;
    while todo != {}
      invariant todo <= set56.Keys && r.Keys <= set56.Keys - todo
      invariant forall sid :: sid in set56 && sid !in todo ==> DifferenceAt(set56, other, sid, r)
      decreases todo
    {
      var sid :| sid in todo;
      if sid !in other {
        r := r[sid := set56[sid]];
      } else {
        var d := Subtract(set56[sid], other[sid]);
        if d.Some? {
          r := r[sid := d.value];
        }
      }
      todo := todo - {sid};
    }
    DifferenceExact(set56, other, r);
    DifferenceShape(set56, other, r);
  }

  /** One server of the result: what it lacks and what it has too much. */
  lemma DifferenceServer(set56: Mysql56GtidSet, other: Mysql56GtidSet, sid: SID, r: Mysql56GtidSet)
    requires ValidSet(set56) && OrderedSet(other) && sid in set56 && DifferenceAt(set56, other, sid, r)
    ensures (forall n :: Holds(set56, sid, n) && !Holds(other, sid, n) ==> Holds(r, sid, n))
            <==> !(sid in other && other[sid] == [] && HeadMatters(set56[sid]))
    ensures (forall n :: Holds(r, sid, n) ==> Holds(set56, sid, n) && !Holds(other, sid, n))
            <==> !(sid in other && Misses(set56[sid], other[sid]))
  {
    if sid in other {
      var a, b := set56[sid], other[sid];
      if b != [] {
        SweepExact(a, b);
        forall n | HasMinus(a, b, n)
          ensures Survives(a, b, |a|, n)
        {
          MinusSurvives(a, b, n);
        }
        assert forall n :: Holds(r, sid, n) <==> Survives(a, b, |a|, n);
      } else if a != [] {
        assert a == [a[0]] + a[1..];
        HasCons(a[0], a[1..]);
        if HeadMatters(a) {
          var n :| a[0].Holds(n) && !Has(a[1..], n);
          assert Holds(set56, sid, n) && !Holds(r, sid, n);
        }
      }
    }
  }

  lemma DifferenceExact(set56: Mysql56GtidSet, other: Mysql56GtidSet, r: Mysql56GtidSet)
    requires ValidSet(set56) && OrderedSet(other) && IsDifference(set56, other, r)
    ensures Denote(set56) - Denote(other) <= Denote(r) <==> !LosesHead(set56, other)
    ensures Denote(r) <= Denote(set56) - Denote(other) <==> !MissesShared(set56, other)
  {
    hide DifferenceAt, Misses, HeadMatters, Denote;
    forall sid | sid in set56
      ensures (forall n :: Holds(set56, sid, n) && !Holds(other, sid, n) ==> Holds(r, sid, n))
              <==> !(sid in other && other[sid] == [] && HeadMatters(set56[sid]))
      ensures (forall n :: Holds(r, sid, n) ==> Holds(set56, sid, n) && !Holds(other, sid, n))
              <==> !(sid in other && Misses(set56[sid], other[sid]))
    {
      DifferenceServer(set56, other, sid, r);
    }
    ByServer(set56, other, r);
  }

  /** Inclusions of transactions, server by server. */
  lemma ByServer(a: Mysql56GtidSet, b: Mysql56GtidSet, r: Mysql56GtidSet)
    requires r.Keys <= a.Keys
    ensures Denote(a) - Denote(b) <= Denote(r)
            <==> forall sid, n :: sid in a && Holds(a, sid, n) && !Holds(b, sid, n) ==> Holds(r, sid, n)
    ensures Denote(r) <= Denote(a) - Denote(b)
            <==> forall sid, n :: sid in a && Holds(r, sid, n) ==> Holds(a, sid, n) && !Holds(b, sid, n)
  {
    if Denote(a) - Denote(b) <= Denote(r) {
      forall sid, n | sid in a && Holds(a, sid, n) && !Holds(b, sid, n)
        ensures Holds(r, sid, n)
      {
        assert Gtid(sid, n) in Denote(a) - Denote(b);
      }
    }
    if Denote(r) <= Denote(a) - Denote(b) {
      forall sid, n | sid in a && Holds(r, sid, n)
        ensures Holds(a, sid, n) && !Holds(b, sid, n)
      {
        assert Gtid(sid, n) in Denote(r);
      }
    }
  }

  /** However far apart the receiver's intervals are, those of the result are too. */
  ghost predicate KeepsSetShape(set56: Mysql56GtidSet, r: Mysql56GtidSet) {
    && ValidSet(r)
    && (SuccessiveSet(set56) ==> SuccessiveSet(r))
    && (DisjointSet(set56) ==> DisjointSet(r))
    && (CanonicalSet(set56) && NoEmptyList(r) ==> CanonicalSet(r))
  }

  lemma CanonicalKept(set56: Mysql56GtidSet, r: Mysql56GtidSet)
    requires CanonicalSet(set56) && KeepsSetShape(set56, r) && NoEmptyList(r)
    ensures CanonicalSet(r)
  {
  }

  lemma DifferenceShape(set56: Mysql56GtidSet, other: Mysql56GtidSet, r: Mysql56GtidSet)
    requires ValidSet(set56) && IsDifference(set56, other, r)
    ensures KeepsSetShape(set56, r)
    ensures NoEmptyList(set56) && NoEmptyList(other) ==> NoEmptyList(r)
  {
    forall sid | sid in r
      ensures AllValid(r[sid])
      ensures Successive(set56[sid]) ==> Successive(r[sid])
      ensures Disjoint(set56[sid]) ==> Disjoint(r[sid])
      ensures Canonical(set56[sid]) ==> Canonical(r[sid])
    {
      assert DifferenceAt(set56, other, sid, r);
      if sid in other && other[sid] != [] {
        ShapeKept(set56[sid], r[sid]);
      }
    }
  }

  /** Nothing is missed, whatever `other` is, if and only if the receiver's intervals follow each other. */
  lemma NeverMissesShared(set56: Mysql56GtidSet)
    requires ValidSet(set56)
    ensures (forall other: Mysql56GtidSet | OrderedSet(other) :: !MissesShared(set56, other)) <==> SuccessiveSet(set56)
  {
    if SuccessiveSet(set56) {
      forall other: Mysql56GtidSet, sid | OrderedSet(other) && sid in set56 && sid in other
        ensures !Misses(set56[sid], other[sid])
      {
        SuccessiveMissesNone(set56[sid], other[sid]);
      }
    } else {
      var other := MissedBy(set56);
    }
  }

  lemma MissedBy(set56: Mysql56GtidSet) returns (other: Mysql56GtidSet)
    requires ValidSet(set56) && !SuccessiveSet(set56)
    ensures Filled(other) && OrderedSet(other) && MissesShared(set56, other)
  {
    var sid :| sid in set56 && !Successive(set56[sid]);
    NeverMisses(set56[sid]);
    var b: seq<Interval> :| Ordered(b) && Misses(set56[sid], b);
    other := map[sid := b];
    assert sid in other && Misses(set56[sid], other[sid]);
  }

  /** With a disjoint receiver the head of a list always matters, and nothing is missed. */
  lemma DisjointDifference(set56: Mysql56GtidSet, other: Mysql56GtidSet)
    requires DisjointSet(set56) && OrderedSet(other)
    ensures ValidSet(set56) && SuccessiveSet(set56) && !MissesShared(set56, other)
    ensures LosesHead(set56, other)
            <==> exists sid :: sid in set56 && sid in other && other[sid] == [] && set56[sid] != []
    ensures NoEmptyList(other) ==> !LosesHead(set56, other)
  {
    forall sid | sid in set56
      ensures Successive(set56[sid]) && (HeadMatters(set56[sid]) <==> set56[sid] != [])
    {
      DisjointHeadMatters(set56[sid]);
    }
    NeverMissesShared(set56);
  }

  /** An empty list makes `Difference` drop a transaction it should keep. */
  method DifferenceLosesHead(sid: SID) returns (r: Mysql56GtidSet)
    ensures var a: Mysql56GtidSet := map[sid := [Interval(1, 5), Interval(7, 9)]];
            var b: Mysql56GtidSet := map[sid := []];
            CanonicalSet(a) && OrderedSet(b) && Gtid(sid, 3) in Denote(a) - Denote(b)
    ensures Gtid(sid, 3) !in Denote(r)
  {
    var a: Mysql56GtidSet := map[sid := [Interval(1, 5), Interval(7, 9)]];
    var b: Mysql56GtidSet := map[sid := []];
    assert a[sid][0].Holds(3);
    r := Difference(a, b);
    assert DifferenceAt(a, b, sid, r);
  }

  /**
   A receiver with overlapping intervals, as the parser can yield, makes `Difference` keep a transaction it should drop.
   */
  method DifferenceKeepsOverlap(sid: SID) returns (r: Mysql56GtidSet)
    ensures var (a, b) := Overlapping(sid);
            Filled(a) && CanonicalSet(b) && Gtid(sid, 5) in Denote(b)
    ensures Gtid(sid, 5) in Denote(r)
  {
    hide *;
    var (a, b) := Overlapping(sid);
    OverlappingSets(sid);
    r := Difference(a, b);
    OverlapKept(sid, r);
  }

  /** `1-10:2-10`, from which `5` is to be taken. */
  function Overlapping(sid: SID): (Mysql56GtidSet, Mysql56GtidSet) {
    (map[sid := [Interval(1, 10), Interval(2, 10)]], map[sid := [Interval(5, 5)]])
  }

  lemma OverlappingSets(sid: SID)
    ensures var (a, b) := Overlapping(sid);
            && Filled(a) && ValidSet(a) && CanonicalSet(b) && OrderedSet(b)
            && Gtid(sid, 5) in Denote(b)
  {
    assert Overlapping(sid).1[sid][0].Holds(5);
  }

  lemma OverlapKept(sid: SID, r: Mysql56GtidSet)
    requires IsDifference(Overlapping(sid).0, Overlapping(sid).1, r)
    ensures Gtid(sid, 5) in Denote(r)
  {
    var (a, b) := Overlapping(sid);
    assert DifferenceAt(a, b, sid, r);
    OverlapSurvives(a[sid], b[sid]);
  }

  lemma OverlapSurvives(a: seq<Interval>, b: seq<Interval>)
    requires a == [Interval(1, 10), Interval(2, 10)] && b == [Interval(5, 5)]
    ensures Survives(a, b, 2, 5)
  {
    assert Kept(a, b, 1, 5);
  }

  // ----- Union -----

  /** `Union`: exact on ordered sets, canonical on canonical ones. */
  method Union(set56: Mysql56GtidSet, other: GtidSet) returns (r: Mysql56GtidSet)
    requires OrderedSet(set56) && (other.Mysql56? ==> OrderedSet(other.sids))
    ensures !other.Mysql56? ==> r == set56
    ensures other.Mysql56? ==>
              && Denote(r) == Denote(set56) + Denote(other.sids)
              && (CanonicalSet(set56) && CanonicalSet(other.sids) ==> CanonicalSet(r))
              && OrderedSet(r)
  {
    if !other.Mysql56? {
      return set56;
    }
    var joined := JoinShared(set56, other.sids);
    r := AddMissing(set56, joined);
    forall sid | sid in r
      ensures UnionAt(set56, other.sids, sid, r[sid])
    {
      if sid !in other.sids {
        UnionAtOne(set56, other.sids, sid);
      }
    }
    UnionExact(set56, other.sids, r);
  }

  /** The second loop of `Union`: the servers of the receiver alone. */
  method AddMissing(set56: Mysql56GtidSet, joined: Mysql56GtidSet) returns (r: Mysql56GtidSet)
    ensures r.Keys == set56.Keys + joined.Keys
    ensures forall sid :: sid in r ==> r[sid] == if sid in joined then joined[sid] else set56[sid]
  {
    r := joined;
    var todo := set56.Keys;
    while todo != {}
      invariant todo <= set56.Keys
      invariant forall sid :: sid in r <==> sid in joined || (sid in set56 && sid !in todo)
      invariant forall sid :: sid in r ==> r[sid] == if sid in joined then joined[sid] else set56[sid]
      decreases todo
    {
      var sid :| sid in todo;
      if sid !in r {
        r := r[sid := set56[sid]];
      }
      todo := todo - {sid};
    }
  }

  /** The first loop of `Union`: the servers of `other`. */
  method JoinShared(set56: Mysql56GtidSet, other: Mysql56GtidSet) returns (r: Mysql56GtidSet)
    requires OrderedSet(set56) && OrderedSet(other)
    ensures r.Keys == other.Keys
    ensures forall sid :: sid in r ==> UnionAt(set56, other, sid, r[sid])
  {
    r := map[];
    var todo := other.Keys;
    while todo != {}
      invariant todo <= other.Keys && r.Keys == other.Keys - todo
      invariant forall sid :: sid in r ==> UnionAt(set56, other, sid, r[sid])
      decreases todo
    {
      var sid :| sid in todo;
      if sid !in set56 {
        UnionAtOne(other, set56, sid);
        r := r[sid := other[sid]];
      } else {
        var merged := Merge(set56[sid], other[sid]);
        CanonicalIsDisjoint(merged);
        r := r[sid := merged];
      }
      todo := todo - {sid};
    }
  }

  /** A server of one set only is copied. */
  lemma UnionAtOne(a: Mysql56GtidSet, b: Mysql56GtidSet, sid: SID)
    requires OrderedSet(a) && sid in a && sid !in b
    ensures UnionAt(a, b, sid, a[sid]) && UnionAt(b, a, sid, a[sid])
  {
  }

  ghost predicate UnionAt(a: Mysql56GtidSet, b: Mysql56GtidSet, sid: SID, r: seq<Interval>) {
    && Ordered(r)
    && (forall n :: Has(r, n) <==> Holds(a, sid, n) || Holds(b, sid, n))
    && (CanonicalSet(a) && CanonicalSet(b) ==> Canonical(r))
  }

  lemma UnionExact(a: Mysql56GtidSet, b: Mysql56GtidSet, r: Mysql56GtidSet)
    requires r.Keys == a.Keys + b.Keys
    requires forall sid :: sid in r ==> UnionAt(a, b, sid, r[sid])
    ensures Denote(r) == Denote(a) + Denote(b)
    ensures CanonicalSet(a) && CanonicalSet(b) ==> CanonicalSet(r)
  {
    forall g: Gtid
      ensures g in Denote(r) <==> g in Denote(a) + Denote(b)
    {
      if g.server in r {
        assert UnionAt(a, b, g.server, r[g.server]);
      }
    }
    if CanonicalSet(a) && CanonicalSet(b) {
      forall sid | sid in r
        ensures r[sid] != []
      {
        assert UnionAt(a, b, sid, r[sid]);
        var ivs := if sid in a then a[sid] else b[sid];
        assert ivs[0].Valid() && ivs[0].Holds(ivs[0].start);
        assert Has(r[sid], ivs[0].start);
      }
    }
  }

  // ----- Intersect -----

  method Intersect(set56: Mysql56GtidSet, other: GtidSet) returns (r: Mysql56GtidSet)
    requires OrderedSet(set56) && (other.Mysql56? ==> OrderedSet(other.sids))
    ensures !other.Mysql56? ==> r == map[]
    ensures other.Mysql56? ==>
              && Denote(r) == Denote(set56) * Denote(other.sids)
              && (CanonicalSet(set56) && CanonicalSet(other.sids) ==> CanonicalSet(r))
  {
    r := map[];
    if !other.Mysql56? {
      return;
    }
    var other56 := other.sids;
    var todo := set56.Keys;
    while todo != {}
      invariant todo <= set56.Keys && r.Keys <= set56.Keys - todo
      invariant forall sid, n :: sid in set56 && sid !in todo ==>
                  (Holds(r, sid, n) <==> Holds(set56, sid, n) && Holds(other56, sid, n))
      invariant CanonicalSet(set56) && CanonicalSet(other56) ==> CanonicalSet(r)
      decreases todo
    {
      var sid :| sid in todo;
      if sid in other56 {
        var common := Common(set56[sid], other56[sid]);
        if |common| > 0 {
          r := r[sid := common];
        }
      }
      todo := todo - {sid};
    }
    forall g: Gtid
      ensures g in Denote(r) <==> g in Denote(set56) * Denote(other56)
    {
      if g.server in set56 {
        assert Holds(r, g.server, g.sequence) <==>
            Holds(set56, g.server, g.sequence) && Holds(other56, g.server, g.sequence);
      }
    }
  }

  // ----- Contains, Equal -----

  /** For ordered sets: every interval of `b` sits inside a single interval of `a`. */
  ghost predicate CoversSet(a: Mysql56GtidSet, b: Mysql56GtidSet) {
    forall sid :: sid in b ==> AllCovered(if sid in a then a[sid] else [], b[sid])
  }

  method Contains(set56: Mysql56GtidSet, other: GtidSet) returns (r: bool)
    requires OrderedSet(set56) && (other.Mysql56? ==> OrderedSet(other.sids))
    ensures !other.Mysql56? ==> !r
    ensures other.Mysql56? ==> (r <==> CoversSet(set56, other.sids))
    ensures other.Mysql56? && UnbrokenSet(set56) ==> (r <==> Denote(other.sids) <= Denote(set56))
  {
    if !other.Mysql56? {
      return false;
    }
    var other56 := other.sids;
    if UnbrokenSet(set56) {
      CoversSetIsSubset(set56, other56);
    }
    var todo := other56.Keys;
    while todo != {}
      invariant todo <= other56.Keys
      invariant forall sid :: sid in other56 && sid !in todo ==>
          AllCovered(if sid in set56 then set56[sid] else [], other56[sid])
      decreases todo
    {
      var sid :| sid in todo;
      var covered := Covers(if sid in set56 then set56[sid] else [], other56[sid]);
      if !covered {
        return false;
      }
      todo := todo - {sid};
    }
    return true;
  }

  lemma CoversSetIsSubset(a: Mysql56GtidSet, b: Mysql56GtidSet)
    requires OrderedSet(a) && UnbrokenSet(a) && OrderedSet(b)
    ensures CoversSet(a, b) <==> Denote(b) <= Denote(a)
  {
    forall sid | sid in b
      ensures AllCovered(if sid in a then a[sid] else [], b[sid]) <==> forall n :: Has(b[sid], n) ==> Holds(a, sid, n)
    {
      CoversIsSubset(if sid in a then a[sid] else [], b[sid]);
    }
    if Denote(b) <= Denote(a) {
      forall sid, n | sid in b && Has(b[sid], n)
        ensures Holds(a, sid, n)
      {
        DenoteIs(b, sid, n);
        DenoteIs(a, sid, n);
      }
    }
  }

  /** `Contains` decides inclusion of every ordered set if and only if the receiver is unbroken. */
  lemma ContainsExact(a: Mysql56GtidSet)
    requires OrderedSet(a)
    ensures (forall b: Mysql56GtidSet | OrderedSet(b) :: CoversSet(a, b) <==> Denote(b) <= Denote(a)) <==>
        UnbrokenSet(a)
  {
    hide CoversSet, Denote, Unbroken, OrderedSet;
    if UnbrokenSet(a) {
      forall b: Mysql56GtidSet | OrderedSet(b)
        ensures CoversSet(a, b) <==> Denote(b) <= Denote(a)
      {
        CoversSetIsSubset(a, b);
      }
    } else {
      var sid :| sid in a && !Unbroken(a[sid]);
      var b := BrokenServer(a, sid);
    }
  }

  lemma BrokenServer(a: Mysql56GtidSet, sid: SID) returns (b: Mysql56GtidSet)
    requires OrderedSet(a) && sid in a && !Unbroken(a[sid])
    ensures OrderedSet(b) && Denote(b) <= Denote(a) && !CoversSet(a, b)
  {
    hide Denote;
    var j, k :| 0 <= j < k < |a[sid]| && !PairSpanned(a[sid], j, k);
    var ivs := BrokenMissed(a[sid], j, k);
    hide AllCovered, Within, Ordered, Covered;
    b := map[sid := ivs];
    WithinServer(a, b, sid);
  }

  lemma WithinServer(a: Mysql56GtidSet, b: Mysql56GtidSet, sid: SID)
    requires sid in a && b.Keys == {sid}
    ensures Denote(b) <= Denote(a) <==> Within(b[sid], a[sid])
  {
    forall n
      ensures Has(b[sid], n) <==> Gtid(sid, n) in Denote(b)
      ensures Has(a[sid], n) <==> Gtid(sid, n) in Denote(a)
    {
    }
    forall g | g in Denote(b)
      ensures g == Gtid(sid, g.sequence)
    {
    }
  }

  /** For disjoint receivers without empty lists that is canonical form. */
  lemma UnbrokenIsCanonical(a: Mysql56GtidSet)
    requires DisjointSet(a) && NoEmptyList(a)
    ensures UnbrokenSet(a) <==> CanonicalSet(a)
  {
    forall sid | sid in a
      ensures Unbroken(a[sid]) <==> Canonical(a[sid])
    {
      DisjointUnbroken(a[sid]);
    }
  }

  /** A receiver whose intervals touch misses a subset. */
  method ContainsMissesTouching(sid: SID) returns (r: bool)
    ensures var (a, b) := Touching(sid);
            DisjointSet(a) && CanonicalSet(b) && Denote(b) <= Denote(a)
    ensures !r
  {
    hide *;
    var (a, b) := Touching(sid);
    TouchingSets(sid);
    r := Contains(a, Mysql56(b));
  }

  /** `1-2:3-4`, of which `1-4` is a subset. */
  function Touching(sid: SID): (Mysql56GtidSet, Mysql56GtidSet) {
    (map[sid := [Interval(1, 2), Interval(3, 4)]], map[sid := [Interval(1, 4)]])
  }

  lemma TouchingSets(sid: SID)
    ensures var (a, b) := Touching(sid);
            && DisjointSet(a) && OrderedSet(a) && CanonicalSet(b) && OrderedSet(b)
            && Denote(b) <= Denote(a) && !CoversSet(a, b)
  {
    var (a, b) := Touching(sid);
    forall g | g in Denote(b)
      ensures g in Denote(a)
    {
      assert a[sid][0].Holds(g.sequence) || a[sid][1].Holds(g.sequence);
    }
    assert !Covered(a[sid], b[sid][0]);
  }

  /** Equal lists for every server of the receiver; a server missing from `other` reads as an empty list. */
  method Equal(set56: Mysql56GtidSet, other: GtidSet) returns (r: bool)
    ensures !other.Mysql56? ==> !r
    ensures other.Mysql56? && set56 == other.sids ==> r
    ensures other.Mysql56? && CanonicalSet(set56) && CanonicalSet(other.sids) ==>
              && (r <==> set56 == other.sids)
              && (r <==> Denote(set56) == Denote(other.sids))
  {
    if !other.Mysql56? {
      return false;
    }
    var other56 := other.sids;
    if CanonicalSet(set56) && CanonicalSet(other56) {
      CanonicalSetUnique(set56, other56);
    }
    if |set56| != |other56| {
      return false;
    }
    var todo := set56.Keys;
    while todo != {}
      invariant todo <= set56.Keys
      invariant forall sid :: sid in set56 && sid !in todo ==> set56[sid] == if sid in other56 then other56[sid] else []
      decreases todo
    {
      var sid :| sid in todo;
      var intervals, otherIntervals := set56[sid], if sid in other56 then other56[sid] else [];
      if |intervals| != |otherIntervals| {
        return false;
      }
      for i := 0 to |intervals|
        invariant intervals[..i] == otherIntervals[..i]
      {
        if intervals[i] != otherIntervals[i] {
          return false;
        }
      }
      assert intervals[..|intervals|] == intervals && otherIntervals[..|intervals|] == otherIntervals;
      todo := todo - {sid};
    }
    if CanonicalSet(set56) && CanonicalSet(other56) {
      assert set56.Keys <= other56.Keys;
      SameSizeKeys(set56.Keys, other56.Keys);
    }
    return true;
  }

  lemma SameSizeKeys(s: set<SID>, t: set<SID>)
    requires s <= t && |s| == |t|
    ensures s == t
  {
    assert |t - s| == |t| - |s|;
  }

  // ----- ContainsGTID, AddGTID -----

  method ContainsGTID(set56: Mysql56GtidSet, gtid: GtidValue) returns (r: bool)
    requires OrderedSet(set56)
    ensures r <==> gtid.Mysql56Gtid? && Gtid(gtid.server, gtid.sequence) in Denote(set56)
  {
    if !gtid.Mysql56Gtid? {
      return false;
    }
    if gtid.server in set56 {
      r := Find(set56[gtid.server], gtid.sequence);
    } else {
      r := false;
    }
  }

  lemma CoversItself(m: Mysql56GtidSet)
    ensures CoversSet(m, m)
  {
    forall sid, k | sid in m && 0 <= k < |m[sid]|
      ensures Covered(m[sid], m[sid][k])
    {
      assert m[sid][k].Contains(m[sid][k]);
    }
  }

  /** `AddGTID` adds exactly one transaction, and every old interval lies inside a new one. */
  method AddGTID(set56: Mysql56GtidSet, gtid: GtidValue) returns (r: Mysql56GtidSet)
    requires OrderedSet(set56) && (gtid.Mysql56Gtid? ==> 1 <= gtid.sequence)
    ensures !gtid.Mysql56Gtid? ==> r == set56
    ensures gtid.Mysql56Gtid? ==> Denote(r) == Denote(set56) + iset{Gtid(gtid.server, gtid.sequence)}
    ensures OrderedSet(r) && CoversSet(r, set56)
    ensures CanonicalSet(set56) ==> CanonicalSet(r)
  {
    hide CoversSet, OrderedSet, CanonicalSet;
    CoversItself(set56);
    if !gtid.Mysql56Gtid? {
      return set56;
    }
    var found := ContainsGTID(set56, gtid);
    if found {
      return set56;
    }
    DenoteIs(set56, gtid.server, gtid.sequence);
    r := CopyWith(set56, gtid.server, gtid.sequence);
    AddExact(set56, gtid.server, gtid.sequence, r);
  }

  /** `to` is `from` with one more number. */
  ghost predicate Extends(from: seq<Interval>, sequence: int64, to: seq<Interval>) {
    && to != [] && Ordered(to) && AllCovered(to, from)
    && (Canonical(from) ==> Canonical(to))
    && forall n :: Has(to, n) <==> Has(from, n) || n == sequence
  }

  /** The copying loop of `AddGTID`, for a transaction that is not in the set. */
  method CopyWith(set56: Mysql56GtidSet, server: SID, sequence: int64) returns (r: Mysql56GtidSet)
    requires OrderedSet(set56) && 1 <= sequence && !Holds(set56, server, sequence)
    ensures r.Keys == set56.Keys + {server}
    ensures forall sid :: sid in r && sid != server ==> r[sid] == set56[sid]
    ensures Extends(if server in set56 then set56[server] else [], sequence, r[server])
  {
    hide Extends;
    r := map[];
    var todo := set56.Keys;
    while todo != {}
      invariant todo <= set56.Keys && r.Keys == set56.Keys - todo
      invariant forall sid :: sid in r && sid != server ==> r[sid] == set56[sid]
      invariant server in r ==> Extends(set56[server], sequence, r[server])
      decreases todo
    {
      var sid :| sid in todo;
      if sid == server {
        var inserted := InsertOne(set56[sid], sequence);
        r := r[sid := inserted];
      } else {
        r := r[sid := set56[sid]];
      }
      todo := todo - {sid};
    }
    if server !in set56 {
      ExtendsNothing(sequence);
      r := r[server := [Interval(sequence, sequence)]];
    }
  }

  method InsertOne(ivs: seq<Interval>, sequence: int64) returns (r: seq<Interval>)
    requires Ordered(ivs) && 1 <= sequence && !Has(ivs, sequence)
    ensures Extends(ivs, sequence, r)
  {
    hide Has, AllCovered, Canonical;
    r := Insert(ivs, sequence);
  }

  lemma ExtendsNothing(sequence: int64)
    requires 1 <= sequence
    ensures Extends([], sequence, [Interval(sequence, sequence)])
  {
    HasSingle(Interval(sequence, sequence));
  }

  lemma AddExact(m: Mysql56GtidSet, server: SID, sequence: int64, r: Mysql56GtidSet)
    requires OrderedSet(m) && r.Keys == m.Keys + {server}
    requires forall sid :: sid in r && sid != server ==> r[sid] == m[sid]
    requires Extends(if server in m then m[server] else [], sequence, r[server])
    ensures OrderedSet(r) && CoversSet(r, m)
    ensures CanonicalSet(m) ==> CanonicalSet(r)
    ensures Denote(r) == Denote(m) + iset{Gtid(server, sequence)}
  {
    hide Ordered, Canonical, AllCovered, Covered;
    AddCovers(m, server, r);
    forall g: Gtid
      ensures g in Denote(r) <==> g in Denote(m) + iset{Gtid(server, sequence)}
    {
      if g.server == server {
        assert g == Gtid(server, g.sequence);
        assert Holds(r, server, g.sequence) <==> Has(r[server], g.sequence);
      }
    }
    NoneIsCanonical();
  }

  lemma NoneIsCanonical()
    ensures Canonical([])
  {
  }

  lemma AddCovers(m: Mysql56GtidSet, server: SID, r: Mysql56GtidSet)
    requires r.Keys == m.Keys + {server} && (forall sid :: sid in r && sid != server ==> r[sid] == m[sid])
    requires server in m ==> AllCovered(r[server], m[server])
    ensures CoversSet(r, m)
  {
    CoversItself(m);
    hide AllCovered;
    forall sid | sid in m
      ensures AllCovered(r[sid], m[sid])
    {
    }
  }

  // ----- TrimGTIDSet -----

  /** The end of a server's last interval. */
  ghost function LastEnd(m: Mysql56GtidSet, sid: SID): int64
    requires sid in m && m[sid] != []
  {
    m[sid][|m[sid]| - 1].end
  }

  /** The source indexes the last interval of every shared server. */
  ghost predicate HasLast(set56: Mysql56GtidSet, other: Mysql56GtidSet) {
    forall sid :: sid in set56 && sid in other ==> set56[sid] != []
  }

  /** The transactions of `other` up to the end of the receiver's last interval, for shared servers. */
  ghost function Bounded(set56: Mysql56GtidSet, other: Mysql56GtidSet): iset<Gtid>
    requires HasLast(set56, other)
  {
    iset g: Gtid | g in Denote(other) && g.server in set56 && g.sequence <= LastEnd(set56, g.server)
  }

  /** Some transaction of `other` lies in a gap of the receiver, before the end of its last interval. */
  ghost predicate FillsGap(set56: Mysql56GtidSet, other: Mysql56GtidSet)
    requires HasLast(set56, other)
  {
    exists sid, n :: sid in set56 && Holds(other, sid, n) && n <= LastEnd(set56, sid) && !Has(set56[sid], n)
  }

  /** `TrimGTIDSet` bounds each shared server by the receiver's last transaction; gaps of the receiver do not count. */
  method TrimGTIDSet(set56: Mysql56GtidSet, other: GtidSet) returns (r: GtidSet)
    requires other.Mysql56? ==> OrderedSet(other.sids) && HasLast(set56, other.sids)
    ensures !other.Mysql56? ==> r == NoSet
    ensures other.Mysql56? ==>
              && r.Mysql56? && r.sids.Keys == set56.Keys * other.sids.Keys
              && Denote(r.sids) == Bounded(set56, other.sids)
              && (CanonicalSet(other.sids) ==> forall sid :: sid in r.sids ==> Canonical(r.sids[sid]))
    ensures other.Mysql56? ==> (Denote(r.sids) <= Denote(set56) <==> !FillsGap(set56, other.sids))
  {
    if !other.Mysql56? {
      return NoSet;
    }
    var other56 := other.sids;
    var m: Mysql56GtidSet := map[];
    var todo := other56.Keys;
    while todo != {}
      invariant todo <= other56.Keys && m.Keys == set56.Keys * (other56.Keys - todo)
      invariant forall sid :: sid in m ==>
                  && (forall n :: Has(m[sid], n) <==> Has(other56[sid], n) && n <= LastEnd(set56, sid))
                  && (Canonical(other56[sid]) ==> Canonical(m[sid]))
      decreases todo
    {
      var sid :| sid in todo;
      if sid in set56 {
        var cut := Cut(other56[sid], set56[sid][|set56[sid]| - 1].end);
        m := m[sid := cut];
      }
      todo := todo - {sid};
    }
    r := Mysql56(m);
    TrimExact(set56, other56, m);
  }

  /** The result stays within the receiver, as documented, if and only if `other` fills no gap of it. */
  lemma TrimExact(set56: Mysql56GtidSet, other: Mysql56GtidSet, m: Mysql56GtidSet)
    requires HasLast(set56, other) && m.Keys == set56.Keys * other.Keys
    requires forall sid :: sid in m ==> forall n :: Has(m[sid], n) <==> Has(other[sid], n) && n <= LastEnd(set56, sid)
    ensures Denote(m) == Bounded(set56, other)
    ensures Denote(m) <= Denote(set56) <==> !FillsGap(set56, other)
  {
    forall g: Gtid
      ensures g in Denote(m) <==> g in Denote(other) && g.server in set56 && g.sequence <= LastEnd(set56, g.server)
    {
    }
    if FillsGap(set56, other) {
      var sid, n :| sid in set56 && Holds(other, sid, n) && n <= LastEnd(set56, sid) && !Has(set56[sid], n);
      DenoteIs(m, sid, n);
      DenoteIs(set56, sid, n);
      DenoteIs(other, sid, n);
    }
  }

  /** With a disjoint receiver: a transaction of `other` before the first interval of its server or between two. */
  lemma FillsGapOfDisjoint(set56: Mysql56GtidSet, other: Mysql56GtidSet)
    requires DisjointSet(set56) && NoEmptyList(set56)
    ensures FillsGap(set56, other) <==> exists sid, n :: sid in set56 && Holds(other, sid, n) && InGap(set56[sid], n)
  {
    forall sid, n | sid in set56 && Holds(other, sid, n)
      ensures n <= LastEnd(set56, sid) && !Has(set56[sid], n) <==> InGap(set56[sid], n)
    {
      GapBeforeEnd(set56[sid], n);
      if n <= LastEnd(set56, sid) {
        InListOrGap(set56[sid], n);
      }
    }
  }

  /** `{1-2, 8-9}` trims `{5}` to itself, a transaction it does not hold. */
  method TrimKeepsGap(sid: SID) returns (r: GtidSet)
    ensures r.Mysql56? && Gtid(sid, 5) in Denote(r.sids)
    ensures var a: Mysql56GtidSet := map[sid := [Interval(1, 2), Interval(8, 9)]];
            CanonicalSet(a) && Gtid(sid, 5) !in Denote(a)
  {
    var a: Mysql56GtidSet := map[sid := [Interval(1, 2), Interval(8, 9)]];
    var b: Mysql56GtidSet := map[sid := [Interval(5, 5)]];
    assert b[sid][0].Holds(5);
    DenoteIs(b, sid, 5);
    r := TrimGTIDSet(a, Mysql56(b));
  }

  // ----- laws -----

  lemma Parts(a: iset<Gtid>, b: iset<Gtid>, d: iset<Gtid>, i: iset<Gtid>)
    requires a - b <= d <= a - b && i == a * b
    ensures d + i == a
  {
  }

  /** Splitting a set along another one and joining the parts gives it back. */
  method SplitAndRejoin(a: Mysql56GtidSet, b: Mysql56GtidSet) returns (u: Mysql56GtidSet, same: bool)
    requires CanonicalSet(a) && CanonicalSet(b)
    ensures u == a && same
  {
    hide *;
    CanonicalSetIsDisjoint(a);
    CanonicalSetIsDisjoint(b);
    DisjointDifference(a, b);
    var d := Difference(a, b);
    CanonicalKept(a, d);
    CanonicalSetIsDisjoint(d);
    var i := Intersect(a, Mysql56(b));
    CanonicalSetIsDisjoint(i);
    u := Union(d, Mysql56(i));
    Parts(Denote(a), Denote(b), Denote(d), Denote(i));
    CanonicalSetUnique(u, a);
    same := Equal(u, Mysql56(a));
  }
}
