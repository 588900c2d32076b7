/** Table map events of the row-based binlog: the printer and the parser. */
module BinlogTableMap {
  import opened Bytes
  import opened Options
  import opened WireEncoding
  import opened BinlogCells

  // ----- the metadata block -----

  /** The source panics on any other type. */
  ghost predicate KnownTypes(types: seq<byte>) {
    forall c :: 0 <= c < |types| ==> MetadataLayout(types[c]) != Unknown
  }

  function MetadatasBytes(types: seq<byte>, metadata: seq<uint16>): (r: seq<byte>)
    requires |types| == |metadata|
  {
    if types == [] then [] else MetadataBytes(types[0], metadata[0]) + MetadatasBytes(types[1..], metadata[1..])
  }

  /** `metadataTotalLength`: as many bytes as the writing loop emits, whatever the metadata. */
  method MetadataTotalLength(types: seq<byte>, ghost metadata: seq<uint16>) returns (sum: nat)
    requires |types| == |metadata| && KnownTypes(types)
    ensures sum == |MetadatasBytes(types, metadata)|
  {
    sum := 0;
    ghost var ts, ms := types, metadata;
    for c := 0 to |types|
      invariant ts == types[c..] && ms == metadata[c..]
      invariant sum + |MetadatasBytes(ts, ms)| == |MetadatasBytes(types, metadata)|
    {
      ShorterSuffix(types, c);
      ShorterSuffix(metadata, c);
      sum := sum + MetadataLength(types[c]);
      ts, ms := ts[1..], ms[1..];
    }
  }

  /** `metadataWrite` */
  method PutMetadata(data: array<byte>, pos: nat, typ: byte, value: uint16, ghost payload: seq<byte>)
    returns (next: nat)
    requires MetadataLayout(typ) != Unknown
    requires Filled(data[..], 0, pos, payload) && pos + MetadataLength(typ) <= data.Length
    modifies data
    ensures next == pos + MetadataLength(typ) && Filled(data[..], 0, next, payload + MetadataBytes(typ, value))
  {
    FillMore(data[..], 0, pos, payload, MetadataBytes(typ, value));
    ghost var was := data[..];
    next := pos;
    match MetadataLayout(typ) {
      case OneByte =>
        data[pos] := value % 256;
        next := pos + 1;
      case BigEndian =>
        data[pos], data[pos + 1] := value / 256, value % 256;
        next := pos + 2;
      case LittleEndian =>
        data[pos], data[pos + 1] := value % 256, value / 256;
        next := pos + 2;
      case Nothing =>
    }
    assert data[..] == Written(was, pos, MetadataBytes(typ, value));
  }

  /** The metadata loop of `NewTableMapEvent`. */
  method PutMetadatas(data: array<byte>, start: nat, types: seq<byte>, metadata: seq<uint16>, ghost payload: seq<byte>)
    returns (pos: nat)
    requires |types| == |metadata| && KnownTypes(types) && Filled(data[..], 0, start, payload)
    requires start + |MetadatasBytes(types, metadata)| <= data.Length
    modifies data
    ensures pos == start + |MetadatasBytes(types, metadata)|
    ensures Filled(data[..], 0, pos, payload + MetadatasBytes(types, metadata))
  {
    hide Filled;
    pos := start;
    ghost var done, ts, ms := payload, types, metadata;
    for c := 0 to |types|
      invariant ts == types[c..] && ms == metadata[c..] && Filled(data[..], 0, pos, done)
      invariant done + MetadatasBytes(ts, ms) == payload + MetadatasBytes(types, metadata)
      invariant pos + |MetadatasBytes(ts, ms)| == start + |MetadatasBytes(types, metadata)|
    {
      ShorterSuffix(types, c);
      ShorterSuffix(metadata, c);
      ghost var field := MetadataBytes(types[c], metadata[c]);
      Assoc(done, field, MetadatasBytes(ts[1..], ms[1..]));
      pos := PutMetadata(data, pos, types[c], metadata[c], done);
      done, ts, ms := done + field, ts[1..], ms[1..];
    }
    assert done + [] == done;
  }

  ghost predicate AllFit(types: seq<byte>, metadata: seq<uint16>) {
    |types| == |metadata| && forall c :: 0 <= c < |types| ==> Fits(types[c], metadata[c])
  }

  lemma MetadatasNext(data: seq<byte>, pos: nat, types: seq<byte>, metadata: seq<uint16>)
    requires AllFit(types, metadata) && types != [] && At(data, pos, MetadatasBytes(types, metadata))
    ensures var next := pos + MetadataLength(types[0]);
            && ReadMetadata(data, pos, types[0]) == Some((metadata[0], next))
            && AllFit(types[1..], metadata[1..]) && At(data, next, MetadatasBytes(types[1..], metadata[1..]))
  {
    AtSplit(data, pos, MetadataBytes(types[0], metadata[0]), MetadatasBytes(types[1..], metadata[1..]));
    assert Fits(types[0], metadata[0]);
    MetadataRoundTrip(data, pos, types[0], metadata[0]);
  }

  /** The metadata loop of `TableMap`, and the position after it. */
  method ReadMetadatas(data: seq<byte>, start: nat, types: seq<byte>, ghost good: bool, ghost metadata: seq<uint16>)
    returns (r: Option<(seq<uint16>, nat)>)
    requires good ==> AllFit(types, metadata) && At(data, start, MetadatasBytes(types, metadata))
    ensures good ==> r == Some((metadata, start + |MetadatasBytes(types, metadata)|))
    ensures r.Some? ==> AllFit(types, r.value.0)
  {
    hide At, AllFit, MetadataBytes;
    var read: seq<uint16> := [];
    var pos: nat := start;
    ghost var ts, ms := types, metadata;
    assert good ==> |types| == |metadata| by { if good { FitLengths(types, metadata); } }
    for c := 0 to |types|
      invariant |read| == c && forall k :: 0 <= k < c ==> Fits(types[k], read[k])
      invariant good ==> ts == types[c..] && ms == metadata[c..] && |ts| == |ms| && read == metadata[..c]
      invariant good ==> AllFit(ts, ms) && At(data, pos, MetadatasBytes(ts, ms))
      invariant good ==> pos + |MetadatasBytes(ts, ms)| == start + |MetadatasBytes(types, metadata)|
    {
      if good {
        MetadatasNext(data, pos, ts, ms);
        ShorterSuffix(types, c);
        ShorterSuffix(metadata, c);
        LongerPrefix(metadata, c);
        ts, ms := ts[1..], ms[1..];
      }
      var next := ReadMetadata(data, pos, types[c]);
      if next.None? {
        return None;
      }
      read := read + [next.value.0];
      pos := next.value.1;
    }
    if good {
      WholePrefix(metadata);
    }
    AllFitIs(types, read);
    return Some((read, pos));
  }

  lemma AllFitIs(types: seq<byte>, metadata: seq<uint16>)
    requires |types| == |metadata| && forall c :: 0 <= c < |types| ==> Fits(types[c], metadata[c])
    ensures AllFit(types, metadata)
  {
  }

  lemma FitLengths(types: seq<byte>, metadata: seq<uint16>)
    requires AllFit(types, metadata)
    ensures |types| == |metadata|
  {
  }

  // ----- names -----

  /** A name behind its length, with a zero after it. */
  function NameBytes(s: seq<byte>): (r: seq<byte>)
    ensures |r| == |s| + 2
  {
    [|s| % 256] + (s + [0])
  }

  /** A name, and the position after its zero, which is not looked at. */
  function ReadName(data: seq<byte>, pos: nat): (r: Option<(seq<byte>, nat)>)
    ensures r.Some? ==> |r.value.0| < 256
  {
    if pos >= |data| || pos + 1 + data[pos] > |data| then None
    else Some((data[pos + 1..pos + 1 + data[pos]], pos + data[pos] + 2))
  }

  /** A name comes back if and only if its length fits a byte. */
  lemma NameRoundTrip(data: seq<byte>, pos: nat, s: seq<byte>)
    requires At(data, pos, NameBytes(s))
    ensures ReadName(data, pos) == Some((s, pos + |NameBytes(s)|)) <==> |s| < 256
  {
    AtSplit(data, pos, [|s| % 256], s + [0]);
    AtSplit(data, pos + 1, s, [0]);
    assert data[pos] == data[pos..pos + 1][0] == |s| % 256;
  }

  // ----- events -----

  /** What the builder writes without a panic, whether or not it comes back. */
  ghost predicate Buildable(tm: TableMap) {
    KnownTypes(tm.types) && |tm.types| == |tm.metadata| && |tm.types| < 0x2000_0000_0000_0000
  }

  ghost predicate GoodMap(tm: TableMap) {
    Buildable(tm) && FitsBytes(tm)
  }

  /** Names and metadata fit the bytes they are given. */
  ghost predicate FitsBytes(tm: TableMap) {
    && |tm.database| < 256 && |tm.name| < 256
    && AllFit(tm.types, tm.metadata)
    && tm.canBeNull.Valid() && tm.canBeNull.count == |tm.types|
  }

  /** Two bytes of metadata at most for each column. */
  lemma {:induction false} MetadatasLength(types: seq<byte>, metadata: seq<uint16>)
    requires |types| == |metadata|
    ensures |MetadatasBytes(types, metadata)| <= 2 * |types|
  {
    if types == [] {
    } else {
      MetadatasLength(types[1..], metadata[1..]);
    }
  }

  function NamesBytes(tm: TableMap): (r: seq<byte>) {
    NameBytes(tm.database) + NameBytes(tm.name)
  }

  function IntroBytes(tableId: nat, tm: TableMap): (r: seq<byte>) {
    PutLe(tableId, 6) + (PutLe(tm.flags, 2) + NamesBytes(tm))
  }

  ghost function ColumnsBytes(tm: TableMap): (r: seq<byte>)
    requires Buildable(tm)
  {
    var metadata := MetadatasBytes(tm.types, tm.metadata);
    MetadatasLength(tm.types, tm.metadata);
    LenEncInt(|tm.types|) + (tm.types + (LenEncInt(|metadata|) + (metadata + tm.canBeNull.data)))
  }

  /** The payload of a table map event. */
  ghost function MapBytes(tableId: nat, tm: TableMap): (r: seq<byte>)
    requires Buildable(tm)
  {
    IntroBytes(tableId, tm) + ColumnsBytes(tm)
  }

  /** The flags, the two names, and the position after them. */
  function ReadIntro(data: seq<byte>, shortHeader: bool): (r: Option<(uint16, seq<byte>, seq<byte>, nat)>)
    ensures r.Some? ==> |r.value.1| < 256 && |r.value.2| < 256
  {
    PowersOf256();
    match ReadFixed(data, if shortHeader then 4 else 6, 2)
    case None => None
    case Some((flags, p1)) =>
      match ReadName(data, p1)
      case None => None
      case Some((database, p2)) =>
        match ReadName(data, p2)
        case None => None
        case Some((name, p3)) => Some((flags, database, name, p3))
  }

  lemma IntroRoundTrip(data: seq<byte>, tableId: nat, tm: TableMap)
    requires |tm.database| < 256 && |tm.name| < 256 && At(data, 0, IntroBytes(tableId, tm))
    ensures ReadIntro(data, false) == Some((tm.flags, tm.database, tm.name, |IntroBytes(tableId, tm)|))
  {
    PowersOf256();
    hide At, PutLe, NameBytes, ReadName;
    var n1 := PutLe(tm.flags, 2) + NamesBytes(tm);
    AtSplit(data, 0, PutLe(tableId, 6), n1);
    AtSplit(data, 6, PutLe(tm.flags, 2), NamesBytes(tm));
    AtSplit(data, 8, NameBytes(tm.database), NameBytes(tm.name));
    FixedRoundTrip(data, 6, tm.flags, 2);
    NameRoundTrip(data, 8, tm.database);
    NameRoundTrip(data, 8 + |NameBytes(tm.database)|, tm.name);
  }

  /** The types, the length of the metadata, and where it starts. */
  function ReadTypes(data: seq<byte>, pos: nat): (r: Option<(seq<byte>, nat, nat)>) {
    match ReadLenEncInt(data, pos)
    case None => None
    case Some((n, p1)) =>
      if p1 + n > |data| then None
      else
        match ReadLenEncInt(data, p1 + n)
        case None => None
        case Some((length, p2)) => Some((data[p1..p1 + n], length, p2))
  }

  lemma TypesRoundTrip(data: seq<byte>, pos: nat, types: seq<byte>, length: uint64, more: seq<byte>)
    requires Sized(types) && At(data, pos, LenEncInt(|types|) + (types + (LenEncInt(length) + more)))
    ensures var next := pos + LenEncIntSize(|types|) + |types| + LenEncIntSize(length);
            ReadTypes(data, pos) == Some((types, length, next)) && At(data, next, more)
  {
    hide LenEncInt, ReadLenEncInt;
    var p1 := pos + LenEncIntSize(|types|);
    AtSplit(data, pos, LenEncInt(|types|), types + (LenEncInt(length) + more));
    LenEncIntRoundTrip(data, pos, |types|);
    AtSplit(data, p1, types, LenEncInt(length) + more);
    AtSplit(data, p1 + |types|, LenEncInt(length), more);
    LenEncIntRoundTrip(data, p1 + |types|, length);
  }

  lemma BitmapRoundTrip(data: seq<byte>, pos: nat, b: Bitmap)
    requires b.Valid() && At(data, pos, b.data)
    ensures NewBitmap(data, pos, b.count) == Some((b, pos + |b.data|))
  {
  }

  lemma ColumnsParts(data: seq<byte>, start: nat, tm: TableMap)
    requires GoodMap(tm) && At(data, start, ColumnsBytes(tm))
    ensures ReadTypes(data, start).Some?
    ensures var (types, length, pos) := ReadTypes(data, start).value;
            && types == tm.types && length == |MetadatasBytes(tm.types, tm.metadata)|
            && At(data, pos, MetadatasBytes(tm.types, tm.metadata)) && AllFit(tm.types, tm.metadata)
            && NewBitmap(data, pos + length, |types|).Some?
            && NewBitmap(data, pos + length, |types|).value.0 == tm.canBeNull
  {
    hide At, MetadatasBytes, ReadTypes, LenEncInt, NewBitmap, AllFit, KnownTypes;
    FitLengths(tm.types, tm.metadata);
    var metadata := MetadatasBytes(tm.types, tm.metadata);
    MetadatasLength(tm.types, tm.metadata);
    var more := metadata + tm.canBeNull.data;
    var pos := start + LenEncIntSize(|tm.types|) + |tm.types| + LenEncIntSize(|metadata|);
    TypesRoundTrip(data, start, tm.types, |metadata|, more);
    AtSplit(data, pos, metadata, tm.canBeNull.data);
    BitmapRoundTrip(data, pos + |metadata|, tm.canBeNull);
  }

  /** `data` is what the builder writes for `tm`. */
  ghost predicate IsMap(data: seq<byte>, tableId: nat, tm: TableMap) {
    Buildable(tm) && data == MapBytes(tableId, tm)
  }

  lemma MapIsBuildable(data: seq<byte>, tableId: nat, tm: TableMap)
    requires IsMap(data, tableId, tm)
    ensures Buildable(tm)
  {
  }

  lemma MapParts(data: seq<byte>, tableId: nat, tm: TableMap)
    requires IsMap(data, tableId, tm) && GoodMap(tm)
    ensures Buildable(tm)
    ensures ReadIntro(data, false) == Some((tm.flags, tm.database, tm.name, |IntroBytes(tableId, tm)|))
    ensures At(data, |IntroBytes(tableId, tm)|, ColumnsBytes(tm))
  {
    hide IntroBytes, ColumnsBytes, ReadIntro;
    AtParts(IntroBytes(tableId, tm), ColumnsBytes(tm), []);
    assert IntroBytes(tableId, tm) + (ColumnsBytes(tm) + []) == data;
    IntroRoundTrip(data, tableId, tm);
  }

  lemma FitsBytesIs(tm: TableMap)
    requires |tm.database| < 256 && |tm.name| < 256 && AllFit(tm.types, tm.metadata)
    requires tm.canBeNull.Valid() && tm.canBeNull.count == |tm.types|
    ensures FitsBytes(tm) && (Buildable(tm) ==> GoodMap(tm))
  {
  }

  /**
   `TableMap`, on the event's bytes after the header; `None` stands for its errors and for reading past the end.
   A map that was written comes back if and only if its names and metadata fit.
   */
  method ReadTableMap(data: seq<byte>, shortHeader: bool, ghost tableId: nat, ghost tm: TableMap)
    returns (r: Option<TableMap>)
    ensures !shortHeader && IsMap(data, tableId, tm) ==> (r == Some(tm) <==> GoodMap(tm))
    ensures r.Some? ==> FitsBytes(r.value)
  {
    hide *;
    ghost var good := !shortHeader && IsMap(data, tableId, tm) && GoodMap(tm);
    if good {
      MapParts(data, tableId, tm);
      ColumnsParts(data, |IntroBytes(tableId, tm)|, tm);
    }
    var intro := ReadIntro(data, shortHeader);
    if intro.None? {
      return None;
    }
    var (flags, database, name, start) := intro.value;
    var columns := ReadTypes(data, start);
    if columns.None? {
      return None;
    }
    var (types, length, pos) := columns.value;
    var metadata := ReadMetadatas(data, pos, types, good, tm.metadata);
    if metadata.None? || metadata.value.1 != pos + length {
      return None;
    }
    var canBeNull := NewBitmap(data, metadata.value.1, |types|);
    if canBeNull.None? {
      return None;
    }
    r := Some(TableMap(flags, database, name, types, canBeNull.value.0, metadata.value.0));
    FitsBytesIs(r.value);
    if IsMap(data, tableId, tm) {
      MapIsBuildable(data, tableId, tm);
    }
  }

  // ----- building events -----

  /** What `NewTableMapEvent` writes before the columns. */
  method PutIntro(data: array<byte>, tableId: nat, tm: TableMap) returns (pos: nat)
    requires |IntroBytes(tableId, tm)| <= data.Length
    modifies data
    ensures pos == |IntroBytes(tableId, tm)| && Filled(data[..], 0, pos, IntroBytes(tableId, tm))
  {
    ghost var id, flags := PutLe(tableId, 6), PutLe(tm.flags, 2);
    ghost var database, name := NameBytes(tm.database), NameBytes(tm.name);
    assert [] + id == id && Filled(data[..], 0, 0, []);
    Assoc(id, flags, database + name);
    Assoc(id + flags, database, name);
    hide PutLe, Filled, NameBytes;
    pos := PutFixed(data, 0, 0, tableId, 6, []);
    pos := PutFixed(data, 0, pos, tm.flags, 2, id);
    pos := PutName(data, pos, tm.database, id + flags);
    pos := PutName(data, pos, tm.name, id + flags + database);
  }

  method PutName(data: array<byte>, start: nat, s: seq<byte>, ghost payload: seq<byte>) returns (pos: nat)
    requires Filled(data[..], 0, start, payload) && start + |s| + 2 <= data.Length
    modifies data
    ensures pos == start + |s| + 2 && Filled(data[..], 0, pos, payload + NameBytes(s))
  {
    ghost var size: seq<byte> := [|s| % 256];
    Assoc(size, s, [0]);
    Assoc(payload, size, s);
    Assoc(payload, size + s, [0]);
    hide Filled;
    pos := PutBytes(data, 0, start, [|s| % 256], payload);
    pos := PutBytes(data, 0, pos, s, payload + size);
    pos := PutBytes(data, 0, pos, [0], payload + size + s);
  }

  /** What `NewTableMapEvent` writes about the columns. */
  method PutColumns(data: array<byte>, start: nat, tm: TableMap, metadataLength: nat, ghost payload: seq<byte>)
    returns (pos: nat)
    requires Buildable(tm) && metadataLength == |MetadatasBytes(tm.types, tm.metadata)|
    requires Filled(data[..], 0, start, payload) && start + |ColumnsBytes(tm)| <= data.Length
    modifies data
    ensures pos == start + |ColumnsBytes(tm)| && Filled(data[..], 0, pos, payload + ColumnsBytes(tm))
  {
    hide Filled, LenEncInt, MetadatasBytes;
    MetadatasLength(tm.types, tm.metadata);
    ghost var count, length := LenEncInt(|tm.types|), LenEncInt(metadataLength);
    ghost var metadata, nulls := MetadatasBytes(tm.types, tm.metadata), tm.canBeNull.data;
    Regroup(payload, count, tm.types, length, metadata, nulls);
    pos := PutInt(data, 0, start, |tm.types|, payload);
    pos := PutBytes(data, 0, pos, tm.types, payload + count);
    pos := PutInt(data, 0, pos, metadataLength, payload + count + tm.types);
    pos := PutMetadatas(data, pos, tm.types, tm.metadata, payload + count + tm.types + length);
    pos := PutBytes(data, 0, pos, tm.canBeNull.data, payload + count + tm.types + length + metadata);
  }

  lemma Regroup(a: seq<byte>, b: seq<byte>, c: seq<byte>, d: seq<byte>, e: seq<byte>, f: seq<byte>)
    ensures a + (b + (c + (d + (e + f)))) == a + b + c + d + e + f
  {
    Assoc(a + b, c, d + (e + f));
    Assoc(a + b + c, d, e + f);
  }

  /** `NewTableMapEvent`, up to `Packetize` */
  method BuildTableMap(tableId: nat, tm: TableMap) returns (data: array<byte>)
    requires Buildable(tm)
    ensures fresh(data) && data[..] == MapBytes(tableId, tm)
  {
    var metadataLength := MetadataTotalLength(tm.types, tm.metadata);
    MetadatasLength(tm.types, tm.metadata);
    var length := 6 + 2 + 1 + |tm.database| + 1 + 1 + |tm.name| + 1 + LenEncIntSize(|tm.types|) + |tm.types|
                  + LenEncIntSize(metadataLength) + metadataLength + |tm.canBeNull.data|;
    assert length == |MapBytes(tableId, tm)|;
    hide IntroBytes, ColumnsBytes;
    data := new byte[length];
    var pos := PutIntro(data, tableId, tm);
    pos := PutColumns(data, pos, tm, metadataLength, IntroBytes(tableId, tm));
    FilledUp(data[..], 0, pos, MapBytes(tableId, tm));
    assert data[..] == data[..][0..];
  }
}
