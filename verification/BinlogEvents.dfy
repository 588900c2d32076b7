/** Binlog events whole: the header and checksum around a payload, and what survives the way there and back. */
module BinlogEvents {
  import opened Bytes
  import opened Options
  import opened WireEncoding
  import opened BinlogCells
  import Rows = BinlogRows
  import Maps = BinlogTableMap

  const ROTATE_EVENT: byte := 4
  const FORMAT_DESCRIPTION_EVENT: byte := 15
  const TABLE_MAP_EVENT: byte := 19
  const HEARTBEAT_EVENT: byte := 27

  datatype Checksum = Off | Undef | Crc32 | OtherAlgorithm

  /** The parts of `BinlogFormat` that reading and writing depend on. */
  datatype Format = Format(headerSizes: seq<byte>, headerLength: byte, checksum: Checksum) {
    /** `HeaderSize`; the source panics on a type the format does not list. */
    function HeaderSize(typ: byte): (r: byte)
      requires 1 <= typ <= |headerSizes|
    {
      headerSizes[typ - 1]
    }
  }

  /** `FakeBinlogStream` */
  datatype Origin = Origin(serverId: uint32, logPosition: uint32, timestamp: uint32)

  function ZeroBytes(n: nat): (r: seq<byte>)
    ensures |r| == n
  {
    seq(n, _ => 0)
  }

  lemma ZeroSplit(m: nat, n: nat)
    ensures ZeroBytes(m + n) == ZeroBytes(m) + ZeroBytes(n)
  {
  }

  // ----- headers -----

  /** The fields every event header has, then log position and flags if there is room for them. */
  function HeaderBytes(headerLength: nat, o: Origin, typ: byte, flags: uint16, length: nat): (r: seq<byte>)
    requires headerLength >= 13
    ensures |r| == headerLength
  {
    PutLe(if typ == ROTATE_EVENT || typ == HEARTBEAT_EVENT then 0 else o.timestamp, 4)
    + ([typ] + (PutLe(o.serverId, 4) + (PutLe(length, 4)
    + if headerLength >= 19 then PutLe(o.logPosition, 4) + (PutLe(flags, 2) + ZeroBytes(headerLength - 19))
      else ZeroBytes(headerLength - 13))))
  }

  /** Whether `Packetize` leaves four bytes at the end. */
  predicate HasTail(f: Format, typ: byte) {
    typ == FORMAT_DESCRIPTION_EVENT || f.checksum == Crc32
  }

  function PacketLength(f: Format, typ: byte, data: seq<byte>): (r: nat) {
    f.headerLength + |data| + if HasTail(f, typ) then 4 else 0
  }

  /** An event without its checksum. */
  function PlainBytes(f: Format, o: Origin, typ: byte, flags: uint16, data: seq<byte>): (r: seq<byte>)
    requires f.headerLength >= 13
  {
    HeaderBytes(f.headerLength, o, typ, flags, PacketLength(f, typ, data)) + data
  }

  /** An event: the plain bytes, then their checksum, or the four zeroes of a format description. */
  function PacketBytes(f: Format, o: Origin, typ: byte, flags: uint16, data: seq<byte>,
                       crc: seq<byte> -> uint32): (r: seq<byte>)
    requires f.headerLength >= 13
  {
    var plain := PlainBytes(f, o, typ, flags, data);
    plain + if f.checksum == Crc32 then PutLe(crc(plain), 4) else if HasTail(f, typ) then ZeroBytes(4) else []
  }

  /** `payload`, and nothing but zeroes after it. */
  ghost predicate Zeroed(buf: seq<byte>, payload: seq<byte>) {
    |payload| <= |buf| && buf == payload + ZeroBytes(|buf| - |payload|)
  }

  lemma ZeroedMore(buf: seq<byte>, payload: seq<byte>, field: seq<byte>)
    requires Zeroed(buf, payload) && |payload| + |field| <= |buf|
    ensures Zeroed(Written(buf, |payload|, field), payload + field)
  {
    var n := |buf| - |payload| - |field|;
    ZeroSplit(|field|, n);
    Assoc(payload, ZeroBytes(|field|), ZeroBytes(n));
    assert buf[|payload| + |field|..] == ZeroBytes(n);
    assert buf[..|payload|] == payload;
  }

  lemma ZeroedSkip(buf: seq<byte>, payload: seq<byte>, n: nat)
    requires Zeroed(buf, payload) && |payload| + n <= |buf|
    ensures Zeroed(buf, payload + ZeroBytes(n))
  {
    var m := |buf| - |payload| - n;
    ZeroSplit(n, m);
    Assoc(payload, ZeroBytes(n), ZeroBytes(m));
  }

  method PutNumber(data: array<byte>, pos: nat, v: nat, w: nat, ghost payload: seq<byte>)
    requires Zeroed(data[..], payload) && pos == |payload| && pos + w <= data.Length
    modifies data
    ensures Zeroed(data[..], payload + PutLe(v, w))
  {
    ZeroedMore(data[..], payload, PutLe(v, w));
    var _ := WriteFixed(data, pos, v, w);
  }

  /** The thirteen bytes that every header has. */
  function HeadBytes(time: uint32, typ: byte, serverId: uint32, length: nat): (r: seq<byte>)
    ensures |r| == 13
  {
    PutLe(time, 4) + PutLe(typ, 1) + PutLe(serverId, 4) + PutLe(length, 4)
  }

  method PutHead(data: array<byte>, time: uint32, typ: byte, serverId: uint32)
    requires 13 <= data.Length && Zeroed(data[..], [])
    modifies data
    ensures Zeroed(data[..], HeadBytes(time, typ, serverId, data.Length))
  {
    ghost var h0, h1, h2 := PutLe(time, 4), PutLe(typ, 1), PutLe(serverId, 4);
    assert [] + h0 == h0;
    hide Zeroed, PutLe;
    PutNumber(data, 0, time, 4, []);
    PutNumber(data, 4, typ, 1, h0);
    PutNumber(data, 5, serverId, 4, h0 + h1);
    PutNumber(data, 9, data.Length, 4, h0 + h1 + h2);
  }

  /** The header part of `Packetize`. */
  method PutHeader(data: array<byte>, headerLength: nat, o: Origin, typ: byte, flags: uint16)
    requires 13 <= headerLength <= data.Length && Zeroed(data[..], [])
    modifies data
    ensures Zeroed(data[..], HeaderBytes(headerLength, o, typ, flags, data.Length))
  {
    var time := if typ == ROTATE_EVENT || typ == HEARTBEAT_EVENT then 0 else o.timestamp;
    HeaderParts(headerLength, o, typ, flags, data.Length);
    hide Zeroed, PutLe, HeadBytes, HeaderBytes;
    ghost var head := HeadBytes(time, typ, o.serverId, data.Length);
    PutHead(data, time, typ, o.serverId);
    if headerLength >= 19 {
      ghost var h4, h5 := PutLe(o.logPosition, 4), PutLe(flags, 2);
      PutNumber(data, 13, o.logPosition, 4, head);
      PutNumber(data, 17, flags, 2, head + h4);
      ZeroedSkip(data[..], head + h4 + h5, headerLength - 19);
    } else {
      ZeroedSkip(data[..], head, headerLength - 13);
    }
  }

  /** A header in the order it is written. */
  lemma HeaderParts(headerLength: nat, o: Origin, typ: byte, flags: uint16, length: nat)
    requires 13 <= headerLength
    ensures var time := if typ == ROTATE_EVENT || typ == HEARTBEAT_EVENT then 0 else o.timestamp;
            var head := HeadBytes(time, typ, o.serverId, length);
            HeaderBytes(headerLength, o, typ, flags, length) ==
              (if headerLength >= 19 then
                 head + PutLe(o.logPosition, 4) + PutLe(flags, 2) + ZeroBytes(headerLength - 19)
               else head + ZeroBytes(headerLength - 13))
  {
    var time := if typ == ROTATE_EVENT || typ == HEARTBEAT_EVENT then 0 else o.timestamp;
    var h0, h1, h2, h3 := PutLe(time, 4), PutLe(typ, 1), PutLe(o.serverId, 4), PutLe(length, 4);
    assert h1 == [typ];
    hide PutLe;
    if headerLength >= 19 {
      var h4, h5, zeros := PutLe(o.logPosition, 4), PutLe(flags, 2), ZeroBytes(headerLength - 19);
      AssocFive(h0, h1, h2, h3, h4 + (h5 + zeros));
      Assoc(h0 + h1 + h2 + h3, h4, h5 + zeros);
      Assoc(h0 + h1 + h2 + h3 + h4, h5, zeros);
    } else {
      AssocFive(h0, h1, h2, h3, ZeroBytes(headerLength - 13));
    }
  }

  /** `Packetize`; `crc` stands for the checksum function. */
  method Packetize(f: Format, o: Origin, typ: byte, flags: uint16, data: seq<byte>, crc: seq<byte> -> uint32)
    returns (result: array<byte>)
    requires f.headerLength >= 13
    ensures fresh(result) && result[..] == PacketBytes(f, o, typ, flags, data, crc)
  {
    var length := PacketLength(f, typ, data);
    result := new byte[length](_ => 0);
    assert result[..] == [] + ZeroBytes(length);
    PutHeader(result, f.headerLength, o, typ, flags);
    ghost var header := HeaderBytes(f.headerLength, o, typ, flags, length);
    hide HeaderBytes;
    ZeroedMore(result[..], header, data);
    var pos := WriteBytes(result, f.headerLength, data);
    ghost var plain := PlainBytes(f, o, typ, flags, data);
    assert result[..length - (if HasTail(f, typ) then 4 else 0)] == plain;
    if f.checksum == Crc32 {
      var checksum := crc(result[..length - 4]);
      ZeroedMore(result[..], plain, PutLe(checksum, 4));
      pos := WriteFixed(result, length - 4, checksum, 4);
    }
  }

  // ----- reading -----

  /** `Type` */
  function Type(ev: seq<byte>): (r: byte)
    requires |ev| > 4
  {
    ev[4]
  }

  /** `IsValid`: long enough for a header, and right about its own length. */
  predicate IsValid(ev: seq<byte>) {
    |ev| >= 19 && GetLe(ev[9..13]) >= 19 && GetLe(ev[9..13]) == |ev| % 0x1_0000_0000
  }

  /**
   `StripChecksum`; `None` stands for an algorithm that is not known, and for an event without room for a checksum.
   */
  function StripChecksum(ev: seq<byte>, checksum: Checksum): (r: Option<seq<byte>>) {
    match checksum
    case Off => Some(ev)
    case Undef => Some(ev)
    case Crc32 => if |ev| < 4 then None else Some(ev[..|ev| - 4])
    case OtherAlgorithm => None
  }

  /** An event made by `Packetize` is valid and of its type, and stripping its checksum leaves its payload. */
  lemma PacketRoundTrip(f: Format, o: Origin, typ: byte, flags: uint16, data: seq<byte>, crc: seq<byte> -> uint32)
    requires f.headerLength >= 13 && typ != FORMAT_DESCRIPTION_EVENT && f.checksum != OtherAlgorithm
    ensures var ev := PacketBytes(f, o, typ, flags, data, crc);
            && |ev| > 4 && Type(ev) == typ
            && (19 <= |ev| < 0x1_0000_0000 ==> IsValid(ev))
            && var plain := StripChecksum(ev, f.checksum);
            plain.Some? && |plain.value| >= f.headerLength && plain.value[f.headerLength..] == data
  {
    var ev, plain := PacketBytes(f, o, typ, flags, data, crc), PlainBytes(f, o, typ, flags, data);
    var header := HeaderBytes(f.headerLength, o, typ, flags, PacketLength(f, typ, data));
    HeaderFields(f.headerLength, o, typ, flags, PacketLength(f, typ, data));
    hide HeaderBytes;
    assert ev[..|plain|] == plain && plain[..f.headerLength] == header && plain[f.headerLength..] == data;
    assert ev[4] == header[4];
    assert ev[9..13] == header[9..13];
  }

  lemma HeaderFields(headerLength: nat, o: Origin, typ: byte, flags: uint16, length: nat)
    requires headerLength >= 13
    ensures var header := HeaderBytes(headerLength, o, typ, flags, length);
            header[4] == typ && (length < 0x1_0000_0000 ==> GetLe(header[9..13]) == length)
  {
    var header := HeaderBytes(headerLength, o, typ, flags, length);
    assert header[9..13] == PutLe(length, 4);
    PowersOf256();
    if length < 0x1_0000_0000 {
      LeRoundTrip(length, 4);
    }
  }

  // ----- there and back -----

  /**
   `NewWriteRowsEvent` and its like, then `StripChecksum` and `Rows`: the rows come back, if any column is present.
   */
  method RowsThereAndBack(f: Format, o: Origin, typ: byte, tableId: nat, rows: Rows.Rows, tm: TableMap,
                          crc: seq<byte> -> uint32)
    returns (r: Option<Rows.Rows>)
    requires Rows.IsV2(typ) && Rows.GoodRows(typ, rows, tm)
    requires f.headerLength >= 13 && f.checksum != OtherAlgorithm && typ <= |f.headerSizes| && f.HeaderSize(typ) != 6
    ensures r == Some(if Rows.Present(typ, rows) then rows else rows.(rows := []))
  {
    Rows.GoodIsUnmixed(typ, rows, tm);
    var data := Rows.BuildRows(typ, tableId, rows);
    var ev := Packetize(f, o, typ, 0, data[..], crc);
    PacketRoundTrip(f, o, typ, 0, data[..], crc);
    hide *;
    var plain := StripChecksum(ev[..], f.checksum);
    r := Rows.ReadRows(plain.value[f.headerLength..], typ, f.HeaderSize(typ) == 6, tm, tableId, rows);
  }

  /** `NewTableMapEvent`, then `StripChecksum` and `TableMap`: the table map comes back if and only if it fits. */
  method MapThereAndBack(f: Format, o: Origin, tableId: nat, tm: TableMap, crc: seq<byte> -> uint32)
    returns (r: Option<TableMap>)
    requires Maps.Buildable(tm)
    requires f.headerLength >= 13 && f.checksum != OtherAlgorithm
    requires TABLE_MAP_EVENT <= |f.headerSizes| && f.HeaderSize(TABLE_MAP_EVENT) == 8
    ensures r == Some(tm) <==> Maps.GoodMap(tm)
  {
    var data := Maps.BuildTableMap(tableId, tm);
    assert Maps.IsMap(data[..], tableId, tm);
    var ev := Packetize(f, o, TABLE_MAP_EVENT, 0, data[..], crc);
    PacketRoundTrip(f, o, TABLE_MAP_EVENT, 0, data[..], crc);
    hide *;
    var plain := StripChecksum(ev[..], f.checksum);
    r := Maps.ReadTableMap(plain.value[f.headerLength..], f.HeaderSize(TABLE_MAP_EVENT) == 6, tableId, tm);
  }
}
