/** The binary form of a GTID set, as sent with a binlog dump command. */
module GtidSidBlock {
  import opened Bytes
  import opened Options
  import opened GtidIntervals
  import opened GtidServers
  import opened GtidSets

  /** The two's complement bit pattern of an `int64`. */
  function ToBits(x: int64): (r: uint64) {
    if x < 0 then x + 0x1_0000_0000_0000_0000 else x
  }

  function FromBits(x: uint64): (r: int64)
    ensures ToBits(r) == x
  {
    if x > MAX_INT64 then x - 0x1_0000_0000_0000_0000 else x
  }

  /** `x - 1` on unsigned 64-bit numbers. */
  function Pred64(x: uint64): (r: uint64) {
    if x == 0 then 0xFFFF_FFFF_FFFF_FFFF else x - 1
  }

  /** The `end + 1` shift of the block form is undone even where it wraps. */
  lemma EndShift(x: int64)
    ensures FromBits(Pred64(ToBits(Wrap64(x + 1)))) == x
    ensures FromBits(ToBits(x)) == x
  {
  }

  function IntervalBytes(iv: Interval): (r: seq<byte>)
    ensures |r| == 16
  {
    PutLe(ToBits(iv.start), 8) + PutLe(ToBits(Wrap64(iv.end + 1)), 8)
  }

  function IntervalsBytes(ivs: seq<Interval>): (r: seq<byte>) {
    if ivs == [] then [] else IntervalBytes(ivs[0]) + IntervalsBytes(ivs[1..])
  }

  /** One server: its ID, the number of intervals, the intervals. */
  function EntryBytes(sid: SID, ivs: seq<Interval>): (r: seq<byte>) {
    sid.bytes + (PutLe(|ivs|, 8) + IntervalsBytes(ivs))
  }

  function EntriesBytes(m: Mysql56GtidSet, sids: seq<SID>): (r: seq<byte>)
    requires forall sid :: sid in sids ==> sid in m
  {
    if sids == [] then [] else EntryBytes(sids[0], m[sids[0]]) + EntriesBytes(m, sids[1..])
  }

  /** The block for the servers in the order `sids`. */
  function BlockBytes(m: Mysql56GtidSet, sids: seq<SID>): (r: seq<byte>)
    requires forall sid :: sid in sids ==> sid in m
  {
    PutLe(|sids|, 8) + EntriesBytes(m, sids)
  }

  /** What fits the block form: 16-byte IDs, counts of 64 bits. */
  ghost predicate FitsBlock(m: Mysql56GtidSet) {
    && |m| < 0x1_0000_0000_0000_0000
    && forall sid :: sid in m ==> sid.Valid() && |m[sid]| < 0x1_0000_0000_0000_0000
  }

  /** The servers that have an interval. */
  ghost function WithoutEmpty(m: Mysql56GtidSet): (r: Mysql56GtidSet)
    ensures r == m <==> NoEmptyList(m)
  {
    map sid | sid in m && m[sid] != [] :: m[sid]
  }

  ghost predicate Encodable(m: Mysql56GtidSet, sids: seq<SID>) {
    Lists(sids, m) && |sids| == |m| && FitsBlock(m)
  }

  method WriteIntervals(buf: seq<byte>, ivs: seq<Interval>) returns (r: seq<byte>)
    ensures r == buf + IntervalsBytes(ivs)
  {
    r := buf;
    for k := 0 to |ivs|
      invariant r + IntervalsBytes(ivs[k..]) == buf + IntervalsBytes(ivs)
    {
      assert ivs[k..][0] == ivs[k] && ivs[k..][1..] == ivs[k + 1..];
      ghost var was := r;
      r := r + PutLe(ToBits(ivs[k].start), 8) + PutLe(ToBits(Wrap64(ivs[k].end + 1)), 8);
      assert r == was + IntervalBytes(ivs[k]);
      assert was + (IntervalBytes(ivs[k]) + IntervalsBytes(ivs[k + 1..])) == r + IntervalsBytes(ivs[k + 1..]);
    }
  }

  method WriteEntry(buf: seq<byte>, sid: SID, ivs: seq<Interval>) returns (r: seq<byte>)
    ensures r == buf + EntryBytes(sid, ivs)
  {
    r := WriteIntervals(buf + sid.bytes + PutLe(|ivs|, 8), ivs);
  }

  /** `SIDBlock`: the servers in increasing order. */
  method SIDBlock(m: Mysql56GtidSet) returns (buf: seq<byte>, ghost order: seq<SID>)
    ensures Sorted(order) && Lists(order, m) && |order| == |m| && buf == BlockBytes(m, order)
  {
    var sids := SIDs(m);
    order := sids;
    buf := PutLe(|m|, 8);
    assert sids[0..] == sids;
    for i := 0 to |sids|
      invariant buf + EntriesBytes(m, sids[i..]) == BlockBytes(m, sids)
    {
      assert sids[i..][0] == sids[i] && sids[i..][1..] == sids[i + 1..];
      ghost var was, rest := buf, EntriesBytes(m, sids[i + 1..]);
      buf := WriteEntry(buf, sids[i], m[sids[i]]);
      Assoc(was, EntryBytes(sids[i], m[sids[i]]), rest);
    }
  }

  /** One byte string is the other or a beginning of it. */
  ghost predicate Agree(data: seq<byte>, enc: seq<byte>) {
    data <= enc || enc <= data
  }

  /** Reading a whole field of an agreeing encoding. */
  lemma Consume(data: seq<byte>, field: seq<byte>, rest: seq<byte>)
    requires Agree(data, field + rest) && |field| <= |data|
    ensures data[..|field|] == field
    ensures Agree(data[|field|..], rest)
    ensures data < field + rest <==> data[|field|..] < rest
  {
    var enc := field + rest;
    assert data[..|field|] == enc[..|field|];
    assert enc[|field|..] == rest;
    if data <= enc {
      assert enc[..|data|] == data;
      assert rest[..|data| - |field|] == data[|field|..];
    } else {
      assert data[..|enc|] == enc;
      assert data[|field|..][..|rest|] == rest;
    }
  }

  /** The inner loop of `FromSIDBlock`: `n` intervals from the front of `data`. */
  method ReadIntervals(data: seq<byte>, n: nat, ghost ivs: seq<Interval>, ghost after: seq<byte>)
    returns (r: Option<(seq<Interval>, seq<byte>)>)
    ensures n == |ivs| && Agree(data, IntervalsBytes(ivs) + after) ==>
              match r
              case None => data < IntervalsBytes(ivs) + after
              case Some((found, rest)) =>
                && found == ivs && Agree(rest, after)
                && (data < IntervalsBytes(ivs) + after <==> rest < after)
  {
    ghost var good := n == |ivs| && Agree(data, IntervalsBytes(ivs) + after);
    var found, rest := [], data;
    for j := 0 to n
      invariant good ==>
                  && found == ivs[..j] && Agree(rest, IntervalsBytes(ivs[j..]) + after)
                  && (data < IntervalsBytes(ivs) + after <==> rest < IntervalsBytes(ivs[j..]) + after)
    {
      if good {
        SplitFirst(ivs, j, after);
      }
      if |rest| < 8 {
        return None;
      }
      var start := GetLe(rest[..8]);
      PowersOf256();
      if good {
        Consume(rest, PutLe(ToBits(ivs[j].start), 8),
                PutLe(ToBits(Wrap64(ivs[j].end + 1)), 8) + (IntervalsBytes(ivs[j + 1..]) + after));
        LeRoundTrip(ToBits(ivs[j].start), 8);
      }
      rest := rest[8..];
      if |rest| < 8 {
        return None;
      }
      var end := GetLe(rest[..8]);
      if good {
        Consume(rest, PutLe(ToBits(Wrap64(ivs[j].end + 1)), 8), IntervalsBytes(ivs[j + 1..]) + after);
        LeRoundTrip(ToBits(Wrap64(ivs[j].end + 1)), 8);
        EndShift(ivs[j].start);
        EndShift(ivs[j].end);
        assert ivs[..j + 1] == ivs[..j] + [ivs[j]];
      }
      rest := rest[8..];
      found := found + [Interval(FromBits(start), FromBits(Pred64(end)))];
    }
    assert good ==> ivs[..|ivs|] == ivs && [] + after == after;
    return Some((found, rest));
  }

  lemma SplitFirst(ivs: seq<Interval>, j: int, after: seq<byte>)
    requires 0 <= j < |ivs|
    ensures IntervalsBytes(ivs[j..]) + after
         == PutLe(ToBits(ivs[j].start), 8)
            + (PutLe(ToBits(Wrap64(ivs[j].end + 1)), 8) + (IntervalsBytes(ivs[j + 1..]) + after))
  {
    assert ivs[j..][0] == ivs[j] && ivs[j..][1..] == ivs[j + 1..];
  }

  /** Of the first `i` servers those that `m` has are read, with the lists of `m`. */
  ghost predicate ReadSoFar(m: Mysql56GtidSet, sids: seq<SID>, i: int, set56: Mysql56GtidSet)
    requires 0 <= i <= |sids|
  {
    && (forall sid :: sid in set56 <==> sid in sids[..i] && sid in m)
    && (forall sid :: sid in set56 ==> set56[sid] == m[sid])
  }

  lemma ReadNext(m: Mysql56GtidSet, sids: seq<SID>, i: int, set56: Mysql56GtidSet)
    requires forall j, k :: 0 <= j < k < |sids| ==> sids[j] != sids[k]
    requires 0 <= i < |sids| && ReadSoFar(m, sids, i, set56)
    ensures sids[i] !in set56
    ensures ReadSoFar(m, sids, i + 1, if sids[i] in m then set56[sids[i] := m[sids[i]]] else set56)
  {
    assert sids[..i + 1] == sids[..i] + [sids[i]];
  }

  lemma ReadAll(m: Mysql56GtidSet, sids: seq<SID>, set56: Mysql56GtidSet)
    requires (forall sid :: sid in m ==> sid in sids) && ReadSoFar(m, sids, |sids|, set56)
    ensures set56 == m
  {
    assert sids[..|sids|] == sids;
    assert set56.Keys == m.Keys;
  }

  /** One server of the block. */
  method ReadEntry(data: seq<byte>, ghost sid: SID, ghost ivs: seq<Interval>, ghost after: seq<byte>)
    returns (r: Option<(SID, seq<Interval>, seq<byte>)>)
    ensures sid.Valid() && |ivs| < 0x1_0000_0000_0000_0000 && Agree(data, EntryBytes(sid, ivs) + after) ==>
              match r
              case None => data < EntryBytes(sid, ivs) + after
              case Some((sid', found, rest)) =>
                && sid' == sid && found == ivs && Agree(rest, after)
                && (data < EntryBytes(sid, ivs) + after <==> rest < after)
  {
    ghost var good := sid.Valid() && |ivs| < 0x1_0000_0000_0000_0000 && Agree(data, EntryBytes(sid, ivs) + after);
    ghost var counted := PutLe(|ivs|, 8) + (IntervalsBytes(ivs) + after);
    assert EntryBytes(sid, ivs) + after == sid.bytes + counted;
    PowersOf256();
    if |data| < 16 {
      return None;
    }
    var server := SID(data[..16]);
    var rest := data[16..];
    if good {
      Consume(data, sid.bytes, counted);
    }
    if |rest| < 8 {
      return None;
    }
    var nIntervals := GetLe(rest[..8]);
    if good {
      Consume(rest, PutLe(|ivs|, 8), IntervalsBytes(ivs) + after);
      LeRoundTrip(|ivs|, 8);
    }
    rest := rest[8..];
    var read := ReadIntervals(rest, nIntervals, ivs, after);
    if read.None? {
      return None;
    }
    return Some((server, read.value.0, read.value.1));
  }

  /** What the loop of `FromSIDBlock` knows after `i` servers. */
  ghost predicate BlockInv(data: seq<byte>, m: Mysql56GtidSet, sids: seq<SID>, i: int, rest: seq<byte>,
                           set56: Mysql56GtidSet)
    requires Lists(sids, m)
  {
    && 0 <= i <= |sids| && ReadSoFar(WithoutEmpty(m), sids, i, set56)
    && Agree(rest, EntriesBytes(m, sids[i..]))
    && (data < BlockBytes(m, sids) <==> rest < EntriesBytes(m, sids[i..]))
  }

  lemma BlockStart(data: seq<byte>, m: Mysql56GtidSet, sids: seq<SID>)
    requires Encodable(m, sids) && Agree(data, BlockBytes(m, sids)) && |data| >= 8
    ensures GetLe(data[..8]) == |sids|
    ensures BlockInv(data, m, sids, 0, data[8..], map[])
  {
    PowersOf256();
    Consume(data, PutLe(|sids|, 8), EntriesBytes(m, sids));
    LeRoundTrip(|sids|, 8);
    assert sids[0..] == sids;
  }

  lemma EntriesSplit(m: Mysql56GtidSet, sids: seq<SID>, i: int)
    requires (forall sid :: sid in sids ==> sid in m) && 0 <= i < |sids|
    ensures EntriesBytes(m, sids[i..]) == EntryBytes(sids[i], m[sids[i]]) + EntriesBytes(m, sids[i + 1..])
  {
    assert sids[i..][0] == sids[i] && sids[i..][1..] == sids[i + 1..];
  }

  lemma BlockStep(data: seq<byte>, m: Mysql56GtidSet, sids: seq<SID>, i: int, rest: seq<byte>, set56: Mysql56GtidSet,
                  rest': seq<byte>)
    requires Encodable(m, sids) && 0 <= i < |sids| && BlockInv(data, m, sids, i, rest, set56)
    requires var after := EntriesBytes(m, sids[i + 1..]);
             Agree(rest', after) && (rest < EntryBytes(sids[i], m[sids[i]]) + after <==> rest' < after)
    ensures sids[i] !in set56
    ensures BlockInv(data, m, sids, i + 1, rest', if m[sids[i]] != [] then set56[sids[i] := m[sids[i]]] else set56)
  {
    EntriesSplit(m, sids, i);
    ReadNext(WithoutEmpty(m), sids, i, set56);
  }

  lemma BlockEnd(data: seq<byte>, m: Mysql56GtidSet, sids: seq<SID>, rest: seq<byte>, set56: Mysql56GtidSet)
    requires Encodable(m, sids) && BlockInv(data, m, sids, |sids|, rest, set56)
    ensures set56 == WithoutEmpty(m) && !(data < BlockBytes(m, sids))
  {
    ReadAll(WithoutEmpty(m), sids, set56);
  }

  /** One round of the loop of `FromSIDBlock`. */
  method NextServer(rest: seq<byte>, set56: Mysql56GtidSet,
                    ghost good: bool, ghost data: seq<byte>,
                    ghost m: Mysql56GtidSet, ghost sids: seq<SID>, ghost i: int)
    returns (r: Option<(seq<byte>, Mysql56GtidSet)>)
    requires good ==> Encodable(m, sids) && 0 <= i < |sids| && BlockInv(data, m, sids, i, rest, set56)
    ensures good && r.None? ==> data < BlockBytes(m, sids)
    ensures good && r.Some? ==> BlockInv(data, m, sids, i + 1, r.value.0, r.value.1)
  {
    hide BlockBytes, EntriesBytes, EntryBytes, ReadSoFar;
    ghost var sid := if good then sids[i] else SID([]);
    ghost var ivs := if good then m[sids[i]] else [];
    ghost var after := if good then EntriesBytes(m, sids[i + 1..]) else [];
    if good {
      EntriesSplit(m, sids, i);
    }
    var entry := ReadEntry(rest, sid, ivs, after);
    if entry.None? {
      return None;
    }
    var (server, found, rest') := entry.value;
    var known := if server in set56 then set56[server] else [];
    r := Some((rest', if |found| > 0 then set56[server := known + found] else set56));
    if good {
      BlockStep(data, m, sids, i, rest, set56, rest');
      assert known + found == m[sids[i]];
    }
  }

  /**
   `NewMysql56GTIDSetFromSIDBlock`. For every encodable set `m` listed as `sids`: its block, with anything
   after it, gives back the servers of `m` that have an interval; a block cut short anywhere is an error.
   */
  method FromSIDBlock(data: seq<byte>, ghost m: Mysql56GtidSet, ghost sids: seq<SID>)
    returns (r: Option<Mysql56GtidSet>)
    ensures Encodable(m, sids) && BlockBytes(m, sids) <= data ==> r == Some(WithoutEmpty(m))
    ensures Encodable(m, sids) && data < BlockBytes(m, sids) ==> r == None
  {
    ghost var good := Encodable(m, sids) && Agree(data, BlockBytes(m, sids));
    if |data| < 8 {
      return None;
    }
    if good {
      BlockStart(data, m, sids);
    }
    var nSIDs := GetLe(data[..8]);
    var rest := data[8..];
    var set56: Mysql56GtidSet := map[];
    for i := 0 to nSIDs
      invariant good ==> nSIDs == |sids| && BlockInv(data, m, sids, i, rest, set56)
    {
      var next := NextServer(rest, set56, good, data, m, sids, i);
      if next.None? {
        return None;
      }
      rest, set56 := next.value.0, next.value.1;
    }
    if good {
      BlockEnd(data, m, sids, rest, set56);
    }
    return Some(set56);
  }

  /** The block of a set reads back as that set if and only if every server has an interval; the others are gone. */
  method BlockThereAndBack(m: Mysql56GtidSet) returns (r: Option<Mysql56GtidSet>)
    requires FitsBlock(m)
    ensures r == Some(WithoutEmpty(m))
    ensures r == Some(m) <==> NoEmptyList(m)
  {
    ghost var order;
    var buf;
    buf, order := SIDBlock(m);
    r := FromSIDBlock(buf, m, order);
  }
}
