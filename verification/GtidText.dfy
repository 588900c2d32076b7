/** The text form of a GTID set: `uuid:interval[:interval]...`, servers separated by commas. */
module GtidText {
  import opened Bytes
  import opened Options
  import opened Decimals
  import opened GtidIntervals
  import opened GtidServers
  import opened GtidSets
  import opened GtidSidBlock

  // ----- server IDs -----

  function HexDigit(d: nat): (c: char)
    requires d < 16
    ensures IsHexLower(c) && HexValue(c) == Some(d)
  {
    if d < 10 then '0' + d as char else 'a' + (d - 10) as char
  }

  function HexValue(c: char): (r: Option<nat>)
    ensures r.Some? ==> r.value < 16
  {
    if '0' <= c <= '9' then Some(c as int - '0' as int)
    else if 'a' <= c <= 'f' then Some(c as int - 'a' as int + 10)
    else if 'A' <= c <= 'F' then Some(c as int - 'A' as int + 10)
    else None
  }

  predicate IsHexLower(c: char) {
    '0' <= c <= '9' || 'a' <= c <= 'f'
  }

  /** The hexadecimal digits of a byte string, most significant half first. */
  function Nibble(b: seq<byte>, k: nat): (c: char)
    requires k < 2 * |b|
    ensures IsHexLower(c)
  {
    if k % 2 == 0 then HexDigit(b[k / 2] / 16) else HexDigit(b[k / 2] % 16)
  }

  /** `hex.Decode` */
  function DecodeHex(s: string): (r: Option<seq<byte>>)
    ensures r.Some? ==> |s| == 2 * |r.value|
  {
    if |s| == 0 then Some([])
    else if |s| == 1 then None
    else
      match (HexValue(s[0]), HexValue(s[1]), DecodeHex(s[2..]))
      case (Some(hi), Some(lo), Some(rest)) => Some([16 * hi + lo] + rest)
      case _ => None
  }

  lemma {:induction false} DecodeNibbles(s: string, b: seq<byte>)
    requires |s| == 2 * |b| && forall k :: 0 <= k < |s| ==> s[k] == Nibble(b, k)
    ensures DecodeHex(s) == Some(b)
    decreases |s|
  {
    if b == [] {
    } else {
      forall k | 0 <= k < |s[2..]|
        ensures s[2..][k] == Nibble(b[1..], k)
      {
        assert s[2..][k] == s[k + 2];
        assert (k + 2) / 2 == k / 2 + 1 && (k + 2) % 2 == k % 2;
      }
      DecodeNibbles(s[2..], b[1..]);
      assert s[0] == Nibble(b, 0) && s[1] == Nibble(b, 1);
      assert b == [b[0]] + b[1..];
    }
  }

  /** How many dashes of the template come before position `i`. */
  function Dashes(i: nat): (d: nat)
    ensures d <= 4 && d <= i
  {
    if i < 9 then 0 else if i < 14 then 1 else if i < 19 then 2 else if i < 24 then 3 else 4
  }

  predicate IsDash(i: nat) {
    i == 8 || i == 13 || i == 18 || i == 23
  }

  /** `SID.String`: the template with dashes, its other positions filled with the digits in order. */
  function SidText(sid: SID): (s: string)
    requires sid.Valid()
    ensures |s| == 36
  {
    seq(36, i requires 0 <= i < 36 => if IsDash(i) then '-' else Nibble(sid.bytes, i - Dashes(i)))
  }

  /** `ParseSID` */
  function ParseSID(s: string): (r: Option<SID>)
    ensures r.Some? ==> r.value.Valid()
  {
    if |s| != 36 || s[8] != '-' || s[13] != '-' || s[18] != '-' || s[23] != '-' then None
    else
      match DecodeHex(s[..8] + s[9..13] + s[14..18] + s[19..23] + s[24..])
      case Some(b) => Some(SID(b))
      case None => None
  }

  lemma SidRoundTrip(sid: SID)
    requires sid.Valid()
    ensures ParseSID(SidText(sid)) == Some(sid)
  {
    var s := SidText(sid);
    var t := s[..8] + s[9..13] + s[14..18] + s[19..23] + s[24..];
    forall k | 0 <= k < 32
      ensures t[k] == Nibble(sid.bytes, k)
    {
      var i := if k < 8 then k else if k < 12 then k + 1 else if k < 16 then k + 2 else if k < 20 then k + 3 else k + 4;
      assert t[k] == s[i] && i - Dashes(i) == k;
    }
    DecodeNibbles(t, sid.bytes);
  }

  lemma SidChars(sid: SID)
    requires sid.Valid()
    ensures forall k :: 0 <= k < 36 ==> IsHexLower(SidText(sid)[k]) || SidText(sid)[k] == '-'
  {
  }

  // ----- trimming -----

  /** `unicode.IsSpace` on the Latin-1 range. */
  predicate IsSpace(c: char) {
    c == ' ' || 9 <= c as int <= 13 || c as int == 0x85 || c as int == 0xA0
  }

  /** `strings.TrimSpace` */
  function TrimSpace(s: string): (r: string)
  {
    if s == "" then ""
    else if IsSpace(s[0]) then TrimSpace(s[1..])
    else if IsSpace(s[|s| - 1]) then TrimSpace(s[..|s| - 1])
    else s
  }

  // ----- intervals -----

  function IntervalText(iv: Interval): (s: string)
    requires iv.Valid()
  {
    if iv.start == iv.end then Format(iv.start) else Format(iv.start) + "-" + Format(iv.end)
  }

  /** `parseInterval` */
  function ParseInterval(s: string): (r: Option<Interval>)
    ensures r.Some? ==> 1 <= r.value.start && 0 <= r.value.end
  {
    var cut := IndexOf(s, '-');
    match ParseUint63(s[..cut])
    case Invalid => None
    case Number(start) =>
      if start < 1 then None
      else if cut < |s| then
        match ParseUint63(s[cut + 1..])
        case Invalid => None
        case Number(end) => Some(Interval(start, end))
      else Some(Interval(start, start))
  }

  lemma IntervalRoundTrip(iv: Interval)
    requires iv.Valid()
    ensures ParseInterval(IntervalText(iv)) == Some(iv)
  {
    var a, b, s := Format(iv.start), Format(iv.end), IntervalText(iv);
    FormatParse(iv.start);
    FormatParse(iv.end);
    IndexAt(a, '-', b);
    if iv.start == iv.end {
      assert s[..|a|] == a;
    } else {
      assert s == a + ['-'] + b;
      assert s[..|a|] == a && s[|a| + 1..] == b;
    }
  }

  predicate IsIntervalChar(c: char) {
    IsDigit(c) || c == '-' || c == ':'
  }

  lemma IntervalChars(iv: Interval)
    requires iv.Valid()
    ensures var s := IntervalText(iv);
            && |s| > 0 && ':' !in s && IsDigit(s[|s| - 1])
            && forall k :: 0 <= k < |s| ==> IsIntervalChar(s[k])
  {
    var a, b, s := Format(iv.start), Format(iv.end), IntervalText(iv);
    assert forall k :: 0 <= k < |a| ==> IsDigit(a[k]);
    assert forall k :: 0 <= k < |b| ==> IsDigit(b[k]);
    assert s == a || s == a + ['-'] + b;
  }

  /** The intervals of one server, each after a colon, as they are written. */
  function ColonText(ivs: seq<Interval>): (s: string)
    requires forall k :: 0 <= k < |ivs| ==> ivs[k].Valid()
  {
    if ivs == [] then "" else [':'] + IntervalText(ivs[0]) + ColonText(ivs[1..])
  }

  /** The same text without the first colon, as it is read. */
  function IntervalsText(ivs: seq<Interval>): (s: string)
    requires |ivs| > 0 && forall k :: 0 <= k < |ivs| ==> ivs[k].Valid()
  {
    IntervalText(ivs[0]) + ColonText(ivs[1..])
  }

  lemma {:induction false} ColonChars(ivs: seq<Interval>)
    requires forall k :: 0 <= k < |ivs| ==> ivs[k].Valid()
    ensures var s := ColonText(ivs);
            && (ivs != [] ==> |s| > 0 && IsDigit(s[|s| - 1]))
            && forall k :: 0 <= k < |s| ==> IsIntervalChar(s[k])
    decreases |ivs|
  {
    if ivs == [] {
    } else {
      IntervalChars(ivs[0]);
      ColonChars(ivs[1..]);
    }
  }

  /** What is left of the text from the `j`-th interval on. */
  ghost function TailText(ivs: seq<Interval>, j: int): (s: string)
    requires 0 <= j <= |ivs| && forall k :: 0 <= k < |ivs| ==> ivs[k].Valid()
  {
    if j == |ivs| then "" else IntervalsText(ivs[j..])
  }

  /** Cutting the text at the next colon yields the next interval. */
  lemma NextInterval(ivs: seq<Interval>, j: int)
    requires 0 <= j < |ivs| && forall k :: 0 <= k < |ivs| ==> ivs[k].Valid()
    ensures var tail := TailText(ivs, j);
            var idx := IndexOf(tail, ':');
            && |tail| > 0
            && ParseInterval(tail[..idx]) == Some(ivs[j])
            && (if idx < |tail| then tail[idx + 1..] else "") == TailText(ivs, j + 1)
  {
    var head := IntervalText(ivs[j]);
    IntervalRoundTrip(ivs[j]);
    IntervalChars(ivs[j]);
    TailSplit(ivs, j);
    CutAt(head, ':', TailText(ivs, j + 1));
  }

  lemma TailSplit(ivs: seq<Interval>, j: int)
    requires 0 <= j < |ivs| && forall k :: 0 <= k < |ivs| ==> ivs[k].Valid()
    ensures var head := IntervalText(ivs[j]);
            TailText(ivs, j) == if j + 1 == |ivs| then head else head + [':'] + TailText(ivs, j + 1)
  {
    var head := IntervalText(ivs[j]);
    assert ivs[j..][0] == ivs[j] && ivs[j..][1..] == ivs[j + 1..];
    if j + 1 < |ivs| {
      assert ivs[j + 1..][0] == ivs[j + 1];
      Assoc(head, [':'], TailText(ivs, j + 1));
      Assoc([':'], IntervalText(ivs[j + 1]), ColonText(ivs[j + 1..][1..]));
    }
  }

  lemma TakeNext<T>(s: seq<T>, j: int)
    requires 0 <= j < |s|
    ensures s[..j + 1] == s[..j] + [s[j]]
  {
  }

  lemma TailEnds(ivs: seq<Interval>, j: int)
    requires 0 <= j <= |ivs| && forall k :: 0 <= k < |ivs| ==> ivs[k].Valid()
    ensures j == 0 < |ivs| ==> TailText(ivs, j) == IntervalsText(ivs)
    ensures TailText(ivs, j) == "" <==> j == |ivs|
    ensures ivs[..0] == [] && ivs[..|ivs|] == ivs
  {
    if j < |ivs| {
      NextInterval(ivs, j);
    }
    assert ivs[0..] == ivs;
  }

  /** The inner loop of the parser: one server's intervals, reversed ranges discarded. */
  method ParseIntervals(text: string, ghost ivs: seq<Interval>) returns (r: Option<seq<Interval>>)
    ensures r.Some? ==> forall k :: 0 <= k < |r.value| ==> r.value[k].Valid()
    ensures |ivs| > 0 && (forall k :: 0 <= k < |ivs| ==> ivs[k].Valid()) && text == IntervalsText(ivs) ==>
        r == Some(ivs)
  {
    hide TailText, IntervalsText, ParseInterval, IndexOf;
    ghost var good := |ivs| > 0 && (forall k :: 0 <= k < |ivs| ==> ivs[k].Valid()) && text == IntervalsText(ivs);
    var tail := text;
    var intervals: seq<Interval> := [];
    ghost var j := 0;
    if good {
      TailEnds(ivs, 0);
    }
    while |tail| > 0
      invariant forall k :: 0 <= k < |intervals| ==> intervals[k].Valid()
      invariant good ==> 0 <= j <= |ivs| && intervals == ivs[..j] && tail == TailText(ivs, j)
      decreases |tail|
    {
      if good {
        TailEnds(ivs, j);
        NextInterval(ivs, j);
        TakeNext(ivs, j);
      }
      var idx := IndexOf(tail, ':');
      var head := tail[..idx];
      tail := if idx < |tail| then tail[idx + 1..] else "";
      var iv := ParseInterval(head);
      if iv.None? {
        return None;
      }
      j := j + 1;
      if iv.value.end < iv.value.start {
        continue;
      }
      intervals := intervals + [iv.value];
    }
    if good {
      TailEnds(ivs, j);
    }
    return Some(intervals);
  }

  // ----- sorting by start -----

  /** Insertion of one interval, after those with the same start. */
  function InsertByStart(iv: Interval, ivs: seq<Interval>): (r: seq<Interval>) {
    if ivs == [] then [iv]
    else if iv.start < ivs[0].start then [iv] + ivs
    else [ivs[0]] + InsertByStart(iv, ivs[1..])
  }

  /** A sort by start; it leaves sorted lists alone. */
  function SortByStart(ivs: seq<Interval>): (r: seq<Interval>) {
    if ivs == [] then [] else InsertByStart(ivs[|ivs| - 1], SortByStart(ivs[..|ivs| - 1]))
  }

  lemma {:induction false} InsertPermutes(iv: Interval, ivs: seq<Interval>)
    ensures multiset(InsertByStart(iv, ivs)) == multiset(ivs) + multiset{iv}
  {
    if ivs == [] {
    } else {
      InsertPermutes(iv, ivs[1..]);
      assert ivs == [ivs[0]] + ivs[1..];
    }
  }

  lemma {:induction false} SortPermutes(ivs: seq<Interval>)
    ensures multiset(SortByStart(ivs)) == multiset(ivs)
  {
    if ivs == [] {
    } else {
      SortPermutes(ivs[..|ivs| - 1]);
      InsertPermutes(ivs[|ivs| - 1], SortByStart(ivs[..|ivs| - 1]));
      assert ivs == ivs[..|ivs| - 1] + [ivs[|ivs| - 1]];
    }
  }

  ghost predicate FromStart(ivs: seq<Interval>, n: int) {
    forall k :: 0 <= k < |ivs| ==> ivs[k].Valid() && n <= ivs[k].start
  }

  lemma {:induction false} InsertFrom(iv: Interval, ivs: seq<Interval>, n: int)
    requires FromStart(ivs, n) && iv.Valid() && n <= iv.start
    ensures FromStart(InsertByStart(iv, ivs), n)
  {
    if ivs == [] || iv.start < ivs[0].start {
    } else {
      InsertFrom(iv, ivs[1..], n);
    }
  }

  lemma {:induction false} InsertOrdered(iv: Interval, ivs: seq<Interval>)
    requires Ordered(ivs) && iv.Valid()
    ensures Ordered(InsertByStart(iv, ivs))
  {
    if ivs == [] || iv.start < ivs[0].start {
    } else {
      InsertOrdered(iv, ivs[1..]);
      InsertFrom(iv, ivs[1..], ivs[0].start);
    }
  }

  lemma {:induction false} InsertLast(iv: Interval, ivs: seq<Interval>)
    requires forall k :: 0 <= k < |ivs| ==> ivs[k].start <= iv.start
    ensures InsertByStart(iv, ivs) == ivs + [iv]
  {
    if ivs == [] {
    } else {
      InsertLast(iv, ivs[1..]);
    }
  }

  lemma {:induction false} SortOrdered(ivs: seq<Interval>)
    requires forall k :: 0 <= k < |ivs| ==> ivs[k].Valid()
    ensures Ordered(SortByStart(ivs))
  {
    if ivs == [] {
    } else {
      SortOrdered(ivs[..|ivs| - 1]);
      InsertOrdered(ivs[|ivs| - 1], SortByStart(ivs[..|ivs| - 1]));
    }
  }

  lemma {:induction false} SortSorted(ivs: seq<Interval>)
    requires Ordered(ivs)
    ensures SortByStart(ivs) == ivs
  {
    if ivs == [] {
    } else {
      SortSorted(ivs[..|ivs| - 1]);
      InsertLast(ivs[|ivs| - 1], ivs[..|ivs| - 1]);
    }
  }

  // ----- sets -----

  function ServerText(sid: SID, ivs: seq<Interval>): (s: string)
    requires Writable(sid, ivs)
  {
    SidText(sid) + ColonText(ivs)
  }

  ghost predicate Printable(m: Mysql56GtidSet, sids: seq<SID>) {
    Lists(sids, m) && AllWritable(m)
  }

  predicate Writable(sid: SID, ivs: seq<Interval>) {
    sid.Valid() && forall k :: 0 <= k < |ivs| ==> ivs[k].Valid()
  }

  /** Sets of 16-byte IDs and valid intervals, in any order. */
  ghost predicate AllWritable(m: Mysql56GtidSet) {
    forall sid :: sid in m ==> Writable(sid, m[sid])
  }

  /** The set with every list sorted, as the parser leaves it. */
  ghost function AsParsed(m: Mysql56GtidSet): (r: Mysql56GtidSet) {
    map sid | sid in m :: SortByStart(m[sid])
  }

  lemma HasSort(ivs: seq<Interval>, n: int)
    ensures Has(SortByStart(ivs), n) <==> Has(ivs, n)
  {
    SortPermutes(ivs);
    var sorted := SortByStart(ivs);
    hide SortByStart;
    if Has(ivs, n) {
      var k :| 0 <= k < |ivs| && ivs[k].Holds(n);
      assert ivs[k] in multiset(sorted);
      var j :| 0 <= j < |sorted| && sorted[j] == ivs[k];
    }
    if Has(sorted, n) {
      var k :| 0 <= k < |sorted| && sorted[k].Holds(n);
      assert sorted[k] in multiset(ivs);
      var j :| 0 <= j < |ivs| && ivs[j] == sorted[k];
    }
  }

  /** Parsing keeps the transactions, and leaves exactly the ordered sets as they are. */
  lemma AsParsedSame(m: Mysql56GtidSet)
    requires AllWritable(m)
    ensures Denote(AsParsed(m)) == Denote(m)
    ensures AsParsed(m) == m <==> OrderedSet(m)
    ensures OrderedSet(AsParsed(m))
  {
    hide SortByStart, Has;
    forall sid | sid in m
      ensures forall n :: Has(AsParsed(m)[sid], n) <==> Has(m[sid], n)
      ensures Ordered(AsParsed(m)[sid])
      ensures Ordered(m[sid]) ==> AsParsed(m)[sid] == m[sid]
    {
      assert Writable(sid, m[sid]);
      forall n
        ensures Has(AsParsed(m)[sid], n) <==> Has(m[sid], n)
      {
        HasSort(m[sid], n);
      }
      SortOrdered(m[sid]);
      if Ordered(m[sid]) {
        SortSorted(m[sid]);
      }
    }
    hide Ordered;
    forall g: Gtid
      ensures g in Denote(AsParsed(m)) <==> g in Denote(m)
    {
      assert g.server in m ==> (Has(AsParsed(m)[g.server], g.sequence) <==> Has(m[g.server], g.sequence));
    }
  }

  /** Servers, each after a comma, as they are written. */
  function CommaText(m: Mysql56GtidSet, sids: seq<SID>): (s: string)
    requires forall k :: 0 <= k < |sids| ==> sids[k] in m && Writable(sids[k], m[sids[k]])
  {
    if sids == [] then "" else [','] + ServerText(sids[0], m[sids[0]]) + CommaText(m, sids[1..])
  }

  function SetText(m: Mysql56GtidSet, sids: seq<SID>): (s: string)
    requires forall k :: 0 <= k < |sids| ==> sids[k] in m && Writable(sids[k], m[sids[k]])
  {
    if sids == [] then "" else ServerText(sids[0], m[sids[0]]) + CommaText(m, sids[1..])
  }

  method WriteInterval(buf: string, iv: Interval) returns (r: string)
    requires iv.Valid()
    ensures r == buf + ([':'] + IntervalText(iv))
  {
    r := buf + [':'] + Format(iv.start);
    if iv.end != iv.start {
      r := r + "-" + Format(iv.end);
    }
  }

  method WriteIntervals(buf: string, ivs: seq<Interval>) returns (r: string)
    requires forall k :: 0 <= k < |ivs| ==> ivs[k].Valid()
    ensures r == buf + ColonText(ivs)
  {
    r := buf;
    assert ivs[0..] == ivs;
    for k := 0 to |ivs|
      invariant r + ColonText(ivs[k..]) == buf + ColonText(ivs)
    {
      assert ivs[k..][0] == ivs[k] && ivs[k..][1..] == ivs[k + 1..];
      Assoc(r, [':'] + IntervalText(ivs[k]), ColonText(ivs[k + 1..]));
      r := WriteInterval(r, ivs[k]);
    }
  }

  method WriteServer(buf: string, sid: SID, ivs: seq<Interval>) returns (r: string)
    requires Writable(sid, ivs)
    ensures r == buf + ServerText(sid, ivs)
  {
    Assoc(buf, SidText(sid), ColonText(ivs));
    r := WriteIntervals(buf + SidText(sid), ivs);
  }

  ghost predicate AllListed(m: Mysql56GtidSet, sids: seq<SID>) {
    forall k :: 0 <= k < |sids| ==> sids[k] in m && Writable(sids[k], m[sids[k]])
  }

  lemma CommaSplit(m: Mysql56GtidSet, sids: seq<SID>, i: int, buf: string)
    requires AllListed(m, sids) && 0 <= i < |sids|
    ensures buf + CommaText(m, sids[i..])
         == (buf + [',']) + ServerText(sids[i], m[sids[i]]) + CommaText(m, sids[i + 1..])
  {
    hide ServerText;
    assert sids[i..][0] == sids[i] && sids[i..][1..] == sids[i + 1..];
  }

  /** The loop of `String`. */
  method WriteServers(m: Mysql56GtidSet, sids: seq<SID>) returns (buf: string)
    requires AllListed(m, sids)
    ensures buf == SetText(m, sids)
  {
    hide ServerText;
    buf := "";
    for i := 0 to |sids|
      invariant if i == 0 then buf == "" else buf + CommaText(m, sids[i..]) == SetText(m, sids)
    {
      if i != 0 {
        CommaSplit(m, sids, i, buf);
        buf := buf + [','];
      }
      buf := WriteServer(buf, sids[i], m[sids[i]]);
    }
  }

  /** `String`: the servers in increasing order. */
  method ToText(m: Mysql56GtidSet) returns (buf: string, ghost order: seq<SID>)
    requires forall sid :: sid in m ==> Writable(sid, m[sid])
    ensures Sorted(order) && Lists(order, m) && AllListed(m, order) && buf == SetText(m, order)
  {
    hide SetText, Writable;
    var sids := SIDs(m);
    order := sids;
    buf := WriteServers(m, sids);
  }

  // ----- parsing -----

  /** One comma-separated part: nothing to keep, an error, or a server with its intervals. */
  datatype Part = Skip | Bad | Server(sid: SID, ivs: seq<Interval>)

  lemma ServerChars(sid: SID, ivs: seq<Interval>)
    requires Writable(sid, ivs)
    ensures ',' !in ServerText(sid, ivs) && TrimSpace(ServerText(sid, ivs)) == ServerText(sid, ivs)
    ensures ServerText(sid, ivs) != ""
  {
    SidChars(sid);
    ColonChars(ivs);
    var id, list := SidText(sid), ColonText(ivs);
    assert forall k :: 0 <= k < |id| ==> id[k] != ',' && !IsSpace(id[k]);
    assert forall k :: 0 <= k < |list| ==> list[k] != ',';
    assert list != "" ==> !IsSpace(list[|list| - 1]);
    assert ivs == [] ==> list == "";
    hide SidText, ColonText, IsSpace;
    var s := id + list;
    assert s[0] == id[0];
    assert s[|s| - 1] == if list == "" then id[|id| - 1] else list[|list| - 1];
  }

  /** Cutting a server's text at the first colon separates its ID from its intervals. */
  lemma ServerCut(sid: SID, ivs: seq<Interval>)
    requires Writable(sid, ivs) && ivs != []
    ensures var s := ServerText(sid, ivs);
            var i := IndexOf(s, ':');
            i < |s| && s[..i] == SidText(sid) && s[i + 1..] == IntervalsText(ivs)
  {
    SidChars(sid);
    CutAt(SidText(sid), ':', IntervalsText(ivs));
    Assoc([':'], IntervalText(ivs[0]), ColonText(ivs[1..]));
    Assoc(SidText(sid), [':'], IntervalsText(ivs));
  }

  /** The ID in front of the first colon, and the text after it. */
  method CutServer(uuidSet: string, ghost sid: SID, ghost ivs: seq<Interval>) returns (r: Option<(SID, string)>)
    ensures r.Some? ==> r.value.0.Valid()
    ensures Writable(sid, ivs) && uuidSet == ServerText(sid, ivs) ==>
              r == if ivs == [] then None else Some((sid, IntervalsText(ivs)))
  {
    var cut := IndexOf(uuidSet, ':');
    if cut == |uuidSet| {
      r := None;
    } else {
      var server := ParseSID(uuidSet[..cut]);
      r := if server.None? then None else Some((server.value, uuidSet[cut + 1..]));
    }
    if Writable(sid, ivs) && uuidSet == ServerText(sid, ivs) {
      if ivs == [] {
        NoColon(sid);
      } else {
        ServerCut(sid, ivs);
        SidRoundTrip(sid);
      }
    }
  }

  /** A server without intervals is printed without a colon. */
  lemma NoColon(sid: SID)
    requires sid.Valid()
    ensures IndexOf(ServerText(sid, []), ':') == |ServerText(sid, [])|
  {
    SidChars(sid);
    var s := ServerText(sid, []);
    assert s == SidText(sid);
    assert ':' !in s;
  }

  method ParseServer(part: string, ghost sid: SID, ghost ivs: seq<Interval>) returns (r: Part)
    ensures r.Server? ==> r.sid.Valid() && r.ivs != [] && forall k :: 0 <= k < |r.ivs| ==> r.ivs[k].Valid()
    ensures Writable(sid, ivs) && part == ServerText(sid, ivs) ==> r == if ivs == [] then Bad else Server(sid, ivs)
  {
    if Writable(sid, ivs) && part == ServerText(sid, ivs) {
      ServerChars(sid, ivs);
    }
    var uuidSet := TrimSpace(part);
    if uuidSet == "" {
      return Skip;
    }
    var cut := CutServer(uuidSet, sid, ivs);
    if cut.None? {
      return Bad;
    }
    var intervals := ParseIntervals(cut.value.1, ivs);
    if intervals.None? {
      return Bad;
    }
    if |intervals.value| == 0 {
      return Skip;
    }
    return Server(cut.value.0, intervals.value);
  }

  /** What is left of the text from the `i`-th server on. */
  ghost function RemainText(m: Mysql56GtidSet, sids: seq<SID>, i: int): (s: string)
    requires AllListed(m, sids) && 0 <= i <= |sids|
  {
    if i == |sids| then "" else SetText(m, sids[i..])
  }

  lemma RemainCut(m: Mysql56GtidSet, sids: seq<SID>, i: int)
    requires AllListed(m, sids) && 0 <= i < |sids|
    ensures var s := RemainText(m, sids, i);
            var idx := IndexOf(s, ',');
            && |s| > 0
            && s[..idx] == ServerText(sids[i], m[sids[i]])
            && (if idx < |s| then s[idx + 1..] else "") == RemainText(m, sids, i + 1)
  {
    var head, rest := ServerText(sids[i], m[sids[i]]), RemainText(m, sids, i + 1);
    ServerChars(sids[i], m[sids[i]]);
    CutAt(head, ',', rest);
    assert sids[i..][0] == sids[i] && sids[i..][1..] == sids[i + 1..];
    if i + 1 < |sids| {
      assert sids[i + 1..][0] == sids[i + 1];
      Assoc([','], ServerText(sids[i + 1], m[sids[i + 1]]), CommaText(m, sids[i + 1..][1..]));
      Assoc(head, [','], rest);
    }
  }

  /** Appending a server's intervals to those it already has, and sorting. */
  function AddServer(set56: Mysql56GtidSet, sid: SID, ivs: seq<Interval>): (r: Mysql56GtidSet) {
    set56[sid := SortByStart((if sid in set56 then set56[sid] else []) + ivs)]
  }

  /** What the parser yields: 16-byte IDs with ordered, non-empty lists, which may overlap. */
  ghost predicate Parsed(m: Mysql56GtidSet) {
    Filled(m) && forall sid :: sid in m ==> sid.Valid()
  }

  lemma SortFilled(ivs: seq<Interval>)
    requires ivs != [] && forall k :: 0 <= k < |ivs| ==> ivs[k].Valid()
    ensures SortByStart(ivs) != [] && Ordered(SortByStart(ivs))
  {
    SortOrdered(ivs);
    SortPermutes(ivs);
    assert |multiset(SortByStart(ivs))| == |multiset(ivs)|;
  }

  lemma AddServerFilled(set56: Mysql56GtidSet, sid: SID, ivs: seq<Interval>)
    requires Parsed(set56) && sid.Valid() && ivs != [] && forall k :: 0 <= k < |ivs| ==> ivs[k].Valid()
    ensures Parsed(AddServer(set56, sid, ivs))
  {
    hide SortByStart;
    SortFilled((if sid in set56 then set56[sid] else []) + ivs);
  }

  lemma AddServerNext(m: Mysql56GtidSet, sids: seq<SID>, i: int, set56: Mysql56GtidSet)
    requires Lists(sids, m) && 0 <= i < |sids| && ReadSoFar(AsParsed(m), sids, i, set56)
    ensures ReadSoFar(AsParsed(m), sids, i + 1, AddServer(set56, sids[i], m[sids[i]]))
  {
    hide SortByStart;
    ReadNext(AsParsed(m), sids, i, set56);
    assert sids[i] in sids;
    assert [] + m[sids[i]] == m[sids[i]];
  }

  /** Where the parser stands after `i` servers of the text of `m`, which all have an interval. */
  ghost predicate ParseInv(m: Mysql56GtidSet, sids: seq<SID>, i: int, input: string, set56: Mysql56GtidSet) {
    && Printable(m, sids) && AllListed(m, sids) && 0 <= i <= |sids|
    && (forall k :: 0 <= k < i ==> m[sids[k]] != [])
    && input == RemainText(m, sids, i) && ReadSoFar(AsParsed(m), sids, i, set56)
  }

  lemma ParseNext(m: Mysql56GtidSet, sids: seq<SID>, i: int, input: string, set56: Mysql56GtidSet)
    requires ParseInv(m, sids, i, input, set56) && |input| > 0
    ensures var idx := IndexOf(input, ',');
            var rest := if idx < |input| then input[idx + 1..] else "";
            && 0 <= i < |sids| && sids[i] in m && Writable(sids[i], m[sids[i]])
            && input[..idx] == ServerText(sids[i], m[sids[i]])
            && (m[sids[i]] != [] ==> ParseInv(m, sids, i + 1, rest, AddServer(set56, sids[i], m[sids[i]])))
  {
    hide ServerText, SetText, Writable, AddServer, ReadSoFar, AsParsed, Lists, AllWritable;
    assert i < |sids|;
    hide RemainText;
    RemainCut(m, sids, i);
    AddServerNext(m, sids, i, set56);
  }

  lemma ParseStart(m: Mysql56GtidSet, sids: seq<SID>)
    requires Printable(m, sids) && AllListed(m, sids)
    ensures ParseInv(m, sids, 0, SetText(m, sids), map[])
  {
    assert sids[0..] == sids;
  }

  lemma ParseDone(m: Mysql56GtidSet, sids: seq<SID>, i: int, set56: Mysql56GtidSet)
    requires ParseInv(m, sids, i, "", set56)
    ensures set56 == AsParsed(m) && NoEmptyList(m)
  {
    hide SortByStart, Writable, ServerText;
    if i < |sids| {
      RemainCut(m, sids, i);
    }
    ReadAll(AsParsed(m), sids, set56);
    forall sid | sid in m
      ensures m[sid] != []
    {
      var k :| 0 <= k < |sids| && sids[k] == sid;
    }
  }

  /** One round of the parser: the part before the next comma. */
  method ParsePart(input: string, set56: Mysql56GtidSet, ghost good: bool, ghost m: Mysql56GtidSet,
                   ghost sids: seq<SID>, ghost i: int)
    returns (r: Option<(string, Mysql56GtidSet)>)
    requires |input| > 0 && Parsed(set56) && (good ==> ParseInv(m, sids, i, input, set56))
    ensures r.Some? ==> |r.value.0| < |input| && Parsed(r.value.1)
    ensures good && r.None? ==> !NoEmptyList(m)
    ensures good && r.Some? ==> ParseInv(m, sids, i + 1, r.value.0, r.value.1)
  {
    hide ParseInv, AddServer, ServerText;
    if good {
      ParseNext(m, sids, i, input, set56);
    }
    var idx := IndexOf(input, ',');
    var part := ParseServer(input[..idx], if good then sids[i] else SID([]), if good then m[sids[i]] else []);
    var rest := if idx < |input| then input[idx + 1..] else "";
    match part
    case Skip => r := Some((rest, set56));
    case Bad => r := None;
    case Server(server, intervals) =>
      AddServerFilled(set56, server, intervals);
      r := Some((rest, AddServer(set56, server, intervals)));
  }

  /** `s` is the text of `m` with its servers in some order. */
  ghost predicate Spells(s: string, m: Mysql56GtidSet, sids: seq<SID>) {
    Printable(m, sids) && AllListed(m, sids) && s == SetText(m, sids)
  }

  /**
   `ParseMysql56GTIDSet`. Whatever the text, an accepted set has ordered, non-empty lists; the text of a
   set `m`, its servers listed in any order `sids`, gives back `m` with its lists sorted, unless one is empty.
   */
  method ParseGTIDSet(s: string, ghost m: Mysql56GtidSet, ghost sids: seq<SID>) returns (r: Option<Mysql56GtidSet>)
    ensures r.Some? ==> Parsed(r.value)
    ensures Spells(s, m, sids) ==> r == if NoEmptyList(m) then Some(AsParsed(m)) else None
  {
    ghost var good := Spells(s, m, sids);
    var set56: Mysql56GtidSet := map[];
    if good {
      ParseStart(m, sids);
    }
    hide Printable, ParseInv, SetText, Spells, AsParsed, NoEmptyList;
    var input := s;
    ghost var i := 0;
    while |input| > 0
      invariant Parsed(set56)
      invariant good ==> ParseInv(m, sids, i, input, set56)
      decreases |input|
    {
      var next := ParsePart(input, set56, good, m, sids, i);
      if next.None? {
        return None;
      }
      input, set56, i := next.value.0, next.value.1, i + 1;
    }
    if good {
      ParseDone(m, sids, i, set56);
    }
    return Some(set56);
  }

  /** The text of a set parses as the same transactions, sorted by start; an empty list is an error. */
  method TextThereAndBack(m: Mysql56GtidSet) returns (r: Option<Mysql56GtidSet>)
    requires AllWritable(m)
    ensures r == if NoEmptyList(m) then Some(AsParsed(m)) else None
    ensures r.Some? ==> Denote(r.value) == Denote(m)
    ensures r == Some(m) <==> NoEmptyList(m) && OrderedSet(m)
  {
    AsParsedSame(m);
    hide AllListed, SetText, Writable, Lists, AsParsed, NoEmptyList, Denote, OrderedSet;
    ghost var order;
    var text;
    text, order := ToText(m);
    r := ParseGTIDSet(text, m, order);
  }

  /** What `Subtract` gives for the texts of `a` and `b`: the text of what `Difference` leaves of their parsed forms. */
  ghost predicate SubtractSpells(a: Mysql56GtidSet, b: Mysql56GtidSet, d: Mysql56GtidSet, order: seq<SID>,
                                 text: string) {
    && Sorted(order) && Spells(text, d, order)
    && IsDifference(AsParsed(a), AsParsed(b), d)
    && Denote(a) - Denote(b) <= Denote(d)
    && (Denote(d) <= Denote(a) - Denote(b) <==> !MissesShared(AsParsed(a), AsParsed(b)))
  }

  /** `Subtract`: an error if and only if a server of either set has no interval. */
  method SubtractTexts(lhs: string, rhs: string,
                       ghost a: Mysql56GtidSet, ghost sa: seq<SID>, ghost b: Mysql56GtidSet, ghost sb: seq<SID>)
    returns (r: Option<string>, ghost d: Mysql56GtidSet, ghost order: seq<SID>)
    ensures Spells(lhs, a, sa) && Spells(rhs, b, sb) ==> (r.Some? <==> NoEmptyList(a) && NoEmptyList(b))
    ensures Spells(lhs, a, sa) && Spells(rhs, b, sb) && r.Some? ==> SubtractSpells(a, b, d, order, r.value)
  {
    hide *;
    d, order := map[], [];
    var lhsSet := ParseGTIDSet(lhs, a, sa);
    if lhsSet.None? {
      return None, d, order;
    }
    var rhsSet := ParseGTIDSet(rhs, b, sb);
    if rhsSet.None? {
      return None, d, order;
    }
    ParsedIs(lhsSet.value);
    ParsedIs(rhsSet.value);
    var diffSet := Difference(lhsSet.value, rhsSet.value);
    DifferenceWritable(lhsSet.value, rhsSet.value, diffSet);
    var text;
    text, order := ToText(diffSet);
    r, d := Some(text), diffSet;
    SpellsIs(text, diffSet, order);
    if Spells(lhs, a, sa) && Spells(rhs, b, sb) {
      PrintedDifference(lhs, a, sa, rhs, b, sb, diffSet);
      SubtractSpellsIs(a, b, d, order, text);
    }
  }

  lemma ParsedIs(m: Mysql56GtidSet)
    requires Parsed(m)
    ensures ValidSet(m) && OrderedSet(m) && NoEmptyList(m)
  {
  }

  lemma DifferenceWritable(a: Mysql56GtidSet, b: Mysql56GtidSet, d: Mysql56GtidSet)
    requires Parsed(a) && IsDifference(a, b, d) && KeepsSetShape(a, d)
    ensures AllWritable(d) && forall sid :: sid in d ==> Writable(sid, d[sid])
  {
  }

  lemma SpellsIs(s: string, m: Mysql56GtidSet, sids: seq<SID>)
    requires AllWritable(m) && Lists(sids, m) && AllListed(m, sids) && s == SetText(m, sids)
    ensures Spells(s, m, sids)
  {
  }

  lemma PrintedDifference(lhs: string, a: Mysql56GtidSet, sa: seq<SID>, rhs: string, b: Mysql56GtidSet, sb: seq<SID>,
                          d: Mysql56GtidSet)
    requires Spells(lhs, a, sa) && Spells(rhs, b, sb) && NoEmptyList(b)
    requires Denote(AsParsed(a)) - Denote(AsParsed(b)) <= Denote(d) <==> !LosesHead(AsParsed(a), AsParsed(b))
    requires Denote(d) <= Denote(AsParsed(a)) - Denote(AsParsed(b)) <==> !MissesShared(AsParsed(a), AsParsed(b))
    ensures Denote(a) - Denote(b) <= Denote(d)
    ensures Denote(d) <= Denote(a) - Denote(b) <==> !MissesShared(AsParsed(a), AsParsed(b))
  {
    AsParsedSame(a);
    AsParsedSame(b);
    hide Denote, MissesShared, SortByStart;
    forall sid | sid in b
      ensures AsParsed(b)[sid] != []
    {
      SortFilled(b[sid]);
    }
  }

  lemma SubtractSpellsIs(a: Mysql56GtidSet, b: Mysql56GtidSet, d: Mysql56GtidSet, order: seq<SID>, text: string)
    requires Sorted(order) && Spells(text, d, order) && IsDifference(AsParsed(a), AsParsed(b), d)
    requires Denote(a) - Denote(b) <= Denote(d)
    requires Denote(d) <= Denote(a) - Denote(b) <==> !MissesShared(AsParsed(a), AsParsed(b))
    ensures SubtractSpells(a, b, d, order, text)
  {
  }

  /** Of two sets with disjoint lists it is the text of their difference. */
  lemma SubtractDisjoint(a: Mysql56GtidSet, b: Mysql56GtidSet, d: Mysql56GtidSet, order: seq<SID>, text: string)
    requires AllWritable(a) && AllWritable(b) && DisjointSet(a) && SubtractSpells(a, b, d, order, text)
    ensures Denote(d) == Denote(a) - Denote(b)
  {
    AsParsedSame(a);
    AsParsedSame(b);
    forall sid | sid in a
      ensures Ordered(a[sid])
    {
      DisjointIsOrdered(a[sid]);
    }
    DisjointDifference(a, AsParsed(b));
  }
}
