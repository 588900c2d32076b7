/** The servers of a GTID set in the order both its written forms list them. */
module GtidServers {
  import opened Bytes
  import opened GtidSets

  /** `bytes.Compare(a, b) < 0` */
  predicate Before(a: seq<byte>, b: seq<byte>) {
    b != [] && (a == [] || a[0] < b[0] || (a[0] == b[0] && Before(a[1..], b[1..])))
  }

  lemma {:induction false} BeforeTransitive(a: seq<byte>, b: seq<byte>, c: seq<byte>)
    requires Before(a, b) && Before(b, c)
    ensures Before(a, c)
  {
    if a == [] || a[0] < b[0] || b[0] < c[0] {
    } else {
      BeforeTransitive(a[1..], b[1..], c[1..]);
    }
  }

  /** Of two different byte strings exactly one comes before the other. */
  lemma {:induction false} BeforeTotal(a: seq<byte>, b: seq<byte>)
    ensures Before(a, b) ==> !Before(b, a) && a != b
    ensures a != b ==> Before(a, b) || Before(b, a)
  {
    if a == [] || b == [] || a[0] != b[0] {
    } else {
      BeforeTotal(a[1..], b[1..]);
      HeadAndTail(a);
      HeadAndTail(b);
    }
  }

  /** `sids` lists the servers of `m`, each once. */
  ghost predicate Lists(sids: seq<SID>, m: Mysql56GtidSet) {
    && (forall sid :: sid in sids <==> sid in m)
    && (forall i, j :: 0 <= i < j < |sids| ==> sids[i] != sids[j])
  }

  ghost predicate Sorted(sids: seq<SID>) {
    forall i, j :: 0 <= i < j < |sids| ==> Before(sids[i].bytes, sids[j].bytes)
  }

  /** Where `sid` belongs in a sorted list. */
  method FindPlace(sids: seq<SID>, sid: SID) returns (k: nat)
    requires Sorted(sids) && sid !in sids
    ensures k <= |sids|
    ensures forall i :: 0 <= i < k ==> Before(sids[i].bytes, sid.bytes)
    ensures forall i :: k <= i < |sids| ==> Before(sid.bytes, sids[i].bytes)
  {
    k := 0;
    while k < |sids| && Before(sids[k].bytes, sid.bytes)
      invariant k <= |sids| && forall i :: 0 <= i < k ==> Before(sids[i].bytes, sid.bytes)
    {
      k := k + 1;
    }
    forall i | k <= i < |sids|
      ensures Before(sid.bytes, sids[i].bytes)
    {
      assert sids[k] != sid;
      BeforeTotal(sids[k].bytes, sid.bytes);
      if k < i {
        BeforeTransitive(sid.bytes, sids[k].bytes, sids[i].bytes);
      }
    }
  }

  /** `SIDs`: every server once, in increasing order; the order in which the map yields them is arbitrary. */
  method SIDs(m: Mysql56GtidSet) returns (sids: seq<SID>)
    ensures Sorted(sids) && Lists(sids, m) && |sids| == |m|
  {
    sids := [];
    var todo := m.Keys;
    while todo != {}
      invariant todo <= m.Keys && Sorted(sids) && |sids| + |todo| == |m|
      invariant forall sid :: sid in sids <==> sid in m && sid !in todo
      decreases todo
    {
      var sid :| sid in todo;
      var k := FindPlace(sids, sid);
      sids, todo := sids[..k] + [sid] + sids[k..], todo - {sid};
    }
    SortedOnce(sids);
  }

  lemma SortedOnce(sids: seq<SID>)
    requires Sorted(sids)
    ensures forall i, j :: 0 <= i < j < |sids| ==> sids[i] != sids[j]
  {
    forall i, j | 0 <= i < j < |sids|
      ensures sids[i] != sids[j]
    {
      BeforeTotal(sids[i].bytes, sids[j].bytes);
    }
  }

  /** Only one sorted list has the servers of a set: what is written does not depend on the map's order. */
  lemma {:induction false} SortedUnique(s: seq<SID>, t: seq<SID>)
    requires Sorted(s) && Sorted(t) && forall sid :: sid in s <==> sid in t
    ensures s == t
  {
    if s == [] || t == [] {
      HasFirst(s);
      HasFirst(t);
    } else {
      FirstIsLeast(s, t);
      FirstIsLeast(t, s);
      BeforeTotal(s[0].bytes, t[0].bytes);
      forall sid
        ensures sid in s[1..] <==> sid in t[1..]
      {
        InTail(s, sid);
        InTail(t, sid);
      }
      SortedUnique(s[1..], t[1..]);
      HeadAndTail(s);
      HeadAndTail(t);
    }
  }

  lemma HasFirst(s: seq<SID>)
    ensures s != [] ==> exists sid :: sid in s
  {
    if s != [] {
      assert s[0] in s;
    }
  }

  lemma FirstIsLeast(s: seq<SID>, t: seq<SID>)
    requires Sorted(s) && s != [] && t != [] && t[0] in s
    ensures s[0] == t[0] || Before(s[0].bytes, t[0].bytes)
  {
    var k :| 0 <= k < |s| && s[k] == t[0];
  }

  lemma InTail(s: seq<SID>, sid: SID)
    requires Sorted(s) && s != []
    ensures sid in s[1..] <==> sid in s && sid != s[0]
  {
    SortedOnce(s);
    HeadAndTail(s);
  }
}
