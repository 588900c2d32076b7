/** The other packets of a query response: column definitions, EOF packets and OK packets. */
module WirePayloads {
  import opened Bytes
  import opened Options
  import opened WireEncoding
  import opened WirePackets
  import opened WireRows

  // ----- runs of strings and of numbers -----

  predicate AllSized(strings: seq<seq<byte>>) {
    forall k :: 0 <= k < |strings| ==> Sized(strings[k])
  }

  function StringsBytes(strings: seq<seq<byte>>): (r: seq<byte>)
    requires AllSized(strings)
  {
    if strings == [] then [] else LenEncString(strings[0]) + StringsBytes(strings[1..])
  }

  /** `n` length-encoded strings read in turn, and the position after them. */
  function ReadStrings(data: seq<byte>, pos: nat, n: nat): (r: Option<(seq<seq<byte>>, nat)>)
    ensures r.Some? ==> |r.value.0| == n
    decreases n
  {
    if n == 0 then Some(([], pos))
    else
      match ReadLenEncString(data, pos)
      case None => None
      case Some((s, next)) =>
        match ReadStrings(data, next, n - 1)
        case None => None
        case Some((more, end)) => Some(([s] + more, end))
  }

  lemma NextString(data: seq<byte>, pos: nat, s: seq<byte>, more: seq<byte>)
    requires Sized(s) && At(data, pos, LenEncString(s) + more)
    ensures ReadLenEncString(data, pos) == Some((s, pos + |LenEncString(s)|))
    ensures At(data, pos + |LenEncString(s)|, more)
  {
    AtSplit(data, pos, LenEncString(s), more);
    LenEncStringRoundTrip(data, pos, s);
  }

  lemma {:induction false} StringsRoundTrip(data: seq<byte>, pos: nat, strings: seq<seq<byte>>)
    requires AllSized(strings) && At(data, pos, StringsBytes(strings))
    ensures ReadStrings(data, pos, |strings|) == Some((strings, pos + |StringsBytes(strings)|))
    decreases |strings|
  {
    hide At, LenEncString, ReadLenEncString;
    if strings == [] {
    } else {
      var first, more := strings[0], strings[1..];
      assert AllSized(more);
      hide AllSized;
      NextString(data, pos, first, StringsBytes(more));
      StringsRoundTrip(data, pos + |LenEncString(first)|, more);
      HeadAndTail(strings);
    }
  }

  method PutStrings(data: array<byte>, pos: nat, strings: seq<seq<byte>>, ghost payload: seq<byte>) returns (next: nat)
    requires AllSized(strings) && Filled(data[..], PACKET_HEADER_SIZE, pos, payload)
    requires pos + |StringsBytes(strings)| <= data.Length
    modifies data
    ensures Filled(data[..], PACKET_HEADER_SIZE, next, payload + StringsBytes(strings))
    decreases |strings|
  {
    if strings == [] {
      assert payload + [] == payload;
      return pos;
    }
    next := PutString(data, PACKET_HEADER_SIZE, pos, strings[0], payload);
    next := PutStrings(data, next, strings[1..], payload + LenEncString(strings[0]));
    Assoc(payload, LenEncString(strings[0]), StringsBytes(strings[1..]));
  }

  /** A number written in a fixed number of bytes. */
  datatype Fixed = Fixed(value: nat, width: nat) {
    predicate Fits() {
      value < Pow256(width)
    }
  }

  function NumbersBytes(numbers: seq<Fixed>): (r: seq<byte>) {
    if numbers == [] then [] else PutLe(numbers[0].value, numbers[0].width) + NumbersBytes(numbers[1..])
  }

  /** Numbers of the given widths read in turn. */
  function ReadNumbers(data: seq<byte>, pos: nat, widths: seq<nat>): (r: Option<seq<Fixed>>)
    ensures r.Some? ==> |r.value| == |widths|
    ensures r.Some? ==> forall k :: 0 <= k < |widths| ==> r.value[k].width == widths[k] && r.value[k].Fits()
    decreases |widths|
  {
    if widths == [] then Some([])
    else
      match ReadFixed(data, pos, widths[0])
      case None => None
      case Some((v, next)) =>
        match ReadNumbers(data, next, widths[1..])
        case None => None
        case Some(more) => Some([Fixed(v, widths[0])] + more)
  }

  function Widths(numbers: seq<Fixed>): (r: seq<nat>) {
    seq(|numbers|, k requires 0 <= k < |numbers| => numbers[k].width)
  }

  /** Numbers read back where they stand, whatever follows them. */
  lemma {:induction false} NumbersRoundTrip(data: seq<byte>, pos: nat, numbers: seq<Fixed>)
    requires At(data, pos, NumbersBytes(numbers)) && forall k :: 0 <= k < |numbers| ==> numbers[k].Fits()
    ensures ReadNumbers(data, pos, Widths(numbers)) == Some(numbers)
    decreases |numbers|
  {
    hide At, PutLe, ReadFixed, Pow256;
    if numbers == [] {
    } else {
      var first, more := numbers[0], numbers[1..];
      WidthsTail(numbers);
      HeadAndTail(numbers);
      hide Widths;
      AtSplit(data, pos, PutLe(first.value, first.width), NumbersBytes(more));
      FixedRoundTrip(data, pos, first.value, first.width);
      NumbersRoundTrip(data, pos + first.width, more);
    }
  }

  lemma WidthsTail(numbers: seq<Fixed>)
    requires numbers != []
    ensures Widths(numbers) != [] && Widths(numbers)[0] == numbers[0].width
    ensures Widths(numbers)[1..] == Widths(numbers[1..])
  {
  }

  method PutNumbers(data: array<byte>, pos: nat, numbers: seq<Fixed>, ghost payload: seq<byte>) returns (next: nat)
    requires Filled(data[..], PACKET_HEADER_SIZE, pos, payload) && pos + |NumbersBytes(numbers)| <= data.Length
    modifies data
    ensures Filled(data[..], PACKET_HEADER_SIZE, next, payload + NumbersBytes(numbers))
    decreases |numbers|
  {
    if numbers == [] {
      assert payload + [] == payload;
      return pos;
    }
    ghost var first := PutLe(numbers[0].value, numbers[0].width);
    next := PutFixed(data, PACKET_HEADER_SIZE, pos, numbers[0].value, numbers[0].width, payload);
    next := PutNumbers(data, next, numbers[1..], payload + first);
    Assoc(payload, first, NumbersBytes(numbers[1..]));
  }

  // ----- column definitions -----

  /** What a column definition packet says about a column. */
  datatype Column = Column(
    database: seq<byte>, table: seq<byte>, orgTable: seq<byte>, name: seq<byte>, orgName: seq<byte>,
    charset: uint16, length: uint32, typ: byte, flags: uint16, decimals: byte)
  {
    function Names(): (r: seq<seq<byte>>)
      ensures |r| == 6
    {
      [CATALOG, database, table, orgTable, name, orgName]
    }

    /** The length of the fixed part comes first. */
    function Numbers(): (r: seq<Fixed>)
      ensures |r| == 6
    {
      [Fixed(0x0c, 1), Fixed(charset, 2), Fixed(length, 4), Fixed(typ, 1), Fixed(flags, 2), Fixed(decimals, 1)]
    }
  }

  const CATALOG: seq<byte> := [0x64, 0x65, 0x66]
  const FILLER: seq<byte> := [0, 0]

  /** The payload `writeColumnDefinition` fills. */
  function ColumnBytes(f: Column): (r: seq<byte>)
    requires AllSized(f.Names())
  {
    StringsBytes(f.Names()) + (NumbersBytes(f.Numbers()) + FILLER)
  }

  /** `readColumnDefinition` on the packet's payload; the catalog is skipped, and the filler is not looked at. */
  function ReadColumn(data: seq<byte>): (r: Option<Column>) {
    PowersOf256();
    match ReadStrings(data, 0, 6)
    case None => None
    case Some((s, pos)) =>
      match ReadNumbers(data, pos, [1, 2, 4, 1, 2, 1])
      case None => None
      case Some(n) =>
        Some(Column(s[1], s[2], s[3], s[4], s[5], n[1].value, n[2].value, n[3].value, n[4].value, n[5].value))
  }

  lemma RecordRoundTrip(data: seq<byte>, names: seq<seq<byte>>, numbers: seq<Fixed>, filler: seq<byte>)
    requires AllSized(names) && forall k :: 0 <= k < |numbers| ==> numbers[k].Fits()
    requires data == StringsBytes(names) + (NumbersBytes(numbers) + filler)
    ensures ReadStrings(data, 0, |names|) == Some((names, |StringsBytes(names)|))
    ensures ReadNumbers(data, |StringsBytes(names)|, Widths(numbers)) == Some(numbers)
  {
    hide StringsBytes, NumbersBytes, ReadStrings, ReadNumbers;
    AtParts(StringsBytes(names), NumbersBytes(numbers), filler);
    StringsRoundTrip(data, 0, names);
    NumbersRoundTrip(data, |StringsBytes(names)|, numbers);
  }

  /** Every column definition written is read back as it was. */
  lemma ColumnRoundTrip(f: Column)
    requires AllSized(f.Names())
    ensures ReadColumn(ColumnBytes(f)) == Some(f)
  {
    hide StringsBytes, NumbersBytes, ReadStrings, ReadNumbers;
    PowersOf256();
    RecordRoundTrip(ColumnBytes(f), f.Names(), f.Numbers(), FILLER);
    assert Widths(f.Numbers()) == [1, 2, 4, 1, 2, 1];
  }

  /** The length `writeColumnDefinition` computes. */
  function ColumnSize(f: Column): (r: nat)
    requires AllSized(f.Names())
  {
    4 + LenEncStringSize(f.Names()[1]) + LenEncStringSize(f.Names()[2]) + LenEncStringSize(f.Names()[3])
    + LenEncStringSize(f.Names()[4]) + LenEncStringSize(f.Names()[5]) + 1 + 2 + 4 + 1 + 2 + 1 + 2
  }

  /** It is the length of what is written, so the source's check that the packet is full never fails. */
  lemma ColumnSizeExact(f: Column)
    requires AllSized(f.Names())
    ensures |ColumnBytes(f)| == ColumnSize(f)
  {
    hide LenEncString, StringsBytes, NumbersBytes, LenEncStringSize;
    var names, numbers := f.Names(), f.Numbers();
    StringsFrom(names, 0);
    StringsFrom(names, 1);
    StringsFrom(names, 2);
    StringsFrom(names, 3);
    StringsFrom(names, 4);
    StringsFrom(names, 5);
    NumbersFrom(numbers, 0);
    NumbersFrom(numbers, 1);
    NumbersFrom(numbers, 2);
    NumbersFrom(numbers, 3);
    NumbersFrom(numbers, 4);
    NumbersFrom(numbers, 5);
    assert names[0..] == names && numbers[0..] == numbers;
    CatalogSize();
  }

  lemma CatalogSize()
    ensures LenEncStringSize(CATALOG) == 4
  {
  }

  lemma StringsFrom(strings: seq<seq<byte>>, k: nat)
    requires AllSized(strings) && k < |strings|
    ensures |StringsBytes(strings[k..])| == LenEncStringSize(strings[k]) + |StringsBytes(strings[k + 1..])|
    ensures k + 1 == |strings| ==> StringsBytes(strings[k + 1..]) == []
  {
    ShorterSuffix(strings, k);
  }

  lemma NumbersFrom(numbers: seq<Fixed>, k: nat)
    requires k < |numbers|
    ensures |NumbersBytes(numbers[k..])| == numbers[k].width + |NumbersBytes(numbers[k + 1..])|
    ensures k + 1 == |numbers| ==> NumbersBytes(numbers[k + 1..]) == []
  {
    ShorterSuffix(numbers, k);
  }

  /** `writeColumnDefinition` */
  method WriteColumn(c: Conn, f: Column)
    requires c.policy == EphemeralUnused && AllSized(f.Names())
    modifies c
    ensures c.policy == EphemeralUnused && c.input == old(c.input)
    ensures (c.output, c.sequence) == SentAll(old(c.output), [ColumnBytes(f)], old(c.sequence))
  {
    ColumnSizeExact(f);
    var data := c.StartEphemeralPacket(ColumnSize(f));
    ghost var names := StringsBytes(f.Names());
    ghost var numbers := NumbersBytes(f.Numbers());
    assert [] + names == names;
    var pos := PutStrings(data, PACKET_HEADER_SIZE, f.Names(), []);
    pos := PutNumbers(data, pos, f.Numbers(), names);
    pos := PutBytes(data, PACKET_HEADER_SIZE, pos, FILLER, names + numbers);
    Assoc(names, numbers, FILLER);
    assert data[4..] == data[..][4..pos];
    c.WriteEphemeralPacket(data);
  }

  // ----- EOF packets -----

  /** The payload `writeEOFPacket` fills. */
  function EofBytes(flags: uint16, warnings: uint16): (r: seq<byte>)
    ensures |r| == 5
  {
    [EOF_PACKET] + (PutLe(warnings, 2) + PutLe(flags, 2))
  }

  /** `writeEOFPacket` */
  method WriteEof(c: Conn, flags: uint16, warnings: uint16)
    requires c.policy == EphemeralUnused
    modifies c
    ensures c.policy == EphemeralUnused && c.input == old(c.input)
    ensures (c.output, c.sequence) == SentAll(old(c.output), [EofBytes(flags, warnings)], old(c.sequence))
  {
    var data := c.StartEphemeralPacket(5);
    assert [] + [EOF_PACKET] == [EOF_PACKET];
    var pos := PutBytes(data, PACKET_HEADER_SIZE, PACKET_HEADER_SIZE, [EOF_PACKET], []);
    pos := PutFixed(data, PACKET_HEADER_SIZE, pos, warnings, 2, [EOF_PACKET]);
    pos := PutFixed(data, PACKET_HEADER_SIZE, pos, flags, 2, [EOF_PACKET] + PutLe(warnings, 2));
    Assoc([EOF_PACKET], PutLe(warnings, 2), PutLe(flags, 2));
    assert data[4..] == data[..][4..pos];
    c.WriteEphemeralPacket(data);
  }

  /** `parseEOFPacket`: the warning count and the status flags. */
  function ParseEof(data: seq<byte>): (r: Option<(uint16, uint16)>) {
    PowersOf256();
    match ReadFixed(data, 3, 2)
    case None => None
    case Some((flags, _)) => Some((GetLe(data[1..3]), flags))
  }

  lemma EofRoundTrip(flags: uint16, warnings: uint16)
    ensures ParseEof(EofBytes(flags, warnings)) == Some((warnings, flags))
  {
    PowersOf256();
    var data := EofBytes(flags, warnings);
    AtParts([EOF_PACKET], PutLe(warnings, 2), PutLe(flags, 2));
    FixedRoundTrip(data, 1, warnings, 2);
    FixedRoundTrip(data, 3, flags, 2);
  }

  // ----- OK packets -----

  /** `field` is the rest of `data` from `pos` on. */
  ghost predicate Ends(data: seq<byte>, pos: nat, field: seq<byte>) {
    At(data, pos, field) && pos + |field| == |data|
  }

  const SESSION_TRACK_GTIDS: byte := 3

  /** `PacketOK` */
  datatype PacketOk = PacketOk(
    affectedRows: uint64, lastInsertId: uint64, statusFlags: uint16, warnings: uint16,
    info: seq<byte>, sessionState: seq<byte>)
  {
    /** A packet is a slice, and slices have signed 64-bit lengths. */
    predicate Sized() {
      |info| + |sessionState| + 64 < 0x8000_0000_0000_0000
    }

    /** `statusFlags&ServerSessionStateChanged` is set. */
    predicate StateChanged() {
      statusFlags / 0x4000 % 2 == 1
    }

    /** `statusFlags&ServerMoreResultsExists` is set. */
    predicate MoreResults() {
      statusFlags / 8 % 2 == 1
    }
  }

  /** What comes before the info text. */
  function OkHead(ok: PacketOk, header: byte): (r: seq<byte>) {
    [header]
    + (LenEncInt(ok.affectedRows) + (LenEncInt(ok.lastInsertId) + (PutLe(ok.statusFlags, 2) + PutLe(ok.warnings, 2))))
  }

  /** One session state change, of the GTID kind. */
  function TrackedGtids(gtids: seq<byte>): (r: seq<byte>)
    requires |gtids| + 64 < 0x8000_0000_0000_0000
  {
    [SESSION_TRACK_GTIDS] + LenEncString([0] + LenEncString(gtids))
  }

  /** The session state changes and their length. */
  function TrackedBytes(gtids: seq<byte>): (r: seq<byte>)
    requires |gtids| + 64 < 0x8000_0000_0000_0000
  {
    LenEncString(TrackedGtids(gtids))
  }

  function OkTail(ok: PacketOk, sessionTrack: bool): (r: seq<byte>)
    requires ok.Sized()
  {
    if !sessionTrack then ok.info
    else LenEncString(ok.info) + if ok.StateChanged() then TrackedBytes(ok.sessionState) else []
  }

  /** The payload `writeOKPacketWithHeader` fills, by whether CLIENT_SESSION_TRACK is on. */
  function OkBytes(ok: PacketOk, header: byte, sessionTrack: bool): (r: seq<byte>)
    requires ok.Sized()
  {
    OkHead(ok, header) + OkTail(ok, sessionTrack)
  }

  /** The length `writeOKPacketWithHeader` computes. */
  function OkSize(ok: PacketOk, sessionTrack: bool): (r: nat)
    requires ok.Sized()
  {
    1 + LenEncIntSize(ok.affectedRows) + LenEncIntSize(ok.lastInsertId) + 4
    + if !sessionTrack then |ok.info|
      else LenEncStringSize(ok.info) + if ok.StateChanged() then |TrackedBytes(ok.sessionState)| else 0
  }

  /** It is the length of what is written. */
  lemma OkSizeExact(ok: PacketOk, header: byte, sessionTrack: bool)
    requires ok.Sized()
    ensures |OkBytes(ok, header, sessionTrack)| == OkSize(ok, sessionTrack)
  {
    hide LenEncInt, TrackedBytes;
  }

  /** The part of `writeOKPacketWithHeader` that every OK packet has. */
  method FillOkHead(data: array<byte>, ok: PacketOk, header: byte) returns (pos: nat)
    requires data.Length >= PACKET_HEADER_SIZE + |OkHead(ok, header)|
    modifies data
    ensures Filled(data[..], PACKET_HEADER_SIZE, pos, OkHead(ok, header))
  {
    ghost var aff, ins := LenEncInt(ok.affectedRows), LenEncInt(ok.lastInsertId);
    ghost var flags, warns := PutLe(ok.statusFlags, 2), PutLe(ok.warnings, 2);
    assert [] + [header] == [header];
    assert |flags| == 2 && |warns| == 2;
    hide LenEncInt, PutLe;
    pos := PutBytes(data, PACKET_HEADER_SIZE, PACKET_HEADER_SIZE, [header], []);
    pos := PutInt(data, PACKET_HEADER_SIZE, pos, ok.affectedRows, [header]);
    pos := PutInt(data, PACKET_HEADER_SIZE, pos, ok.lastInsertId, [header] + aff);
    pos := PutFixed(data, PACKET_HEADER_SIZE, pos, ok.statusFlags, 2, [header] + aff + ins);
    pos := PutFixed(data, PACKET_HEADER_SIZE, pos, ok.warnings, 2, [header] + aff + ins + flags);
    AssocFive([header], aff, ins, flags, warns);
  }

  /** `writeOKPacketWithHeader` */
  method WriteOk(c: Conn, ok: PacketOk, header: byte, sessionTrack: bool)
    requires c.policy == EphemeralUnused && ok.Sized()
    modifies c
    ensures c.policy == EphemeralUnused && c.input == old(c.input)
    ensures (c.output, c.sequence) == SentAll(old(c.output), [OkBytes(ok, header, sessionTrack)], old(c.sequence))
  {
    ghost var head := OkHead(ok, header);
    OkSizeExact(ok, header, sessionTrack);
    var data := c.StartEphemeralPacket(OkSize(ok, sessionTrack));
    var pos := FillOkHead(data, ok, header);
    if sessionTrack {
      pos := PutString(data, PACKET_HEADER_SIZE, pos, ok.info, head);
      if ok.StateChanged() {
        pos := PutBytes(data, PACKET_HEADER_SIZE, pos, TrackedBytes(ok.sessionState), head + LenEncString(ok.info));
        Assoc(head, LenEncString(ok.info), TrackedBytes(ok.sessionState));
      } else {
        assert LenEncString(ok.info) + [] == LenEncString(ok.info);
      }
    } else {
      pos := PutBytes(data, PACKET_HEADER_SIZE, pos, ok.info, head);
    }
    assert data[4..] == data[..][4..pos];
    c.WriteEphemeralPacket(data);
  }

  /** The numbers at the head of an OK packet, and the position after them. */
  function ParseOkHead(data: seq<byte>): (r: Option<(PacketOk, nat)>) {
    PowersOf256();
    match ReadLenEncInt(data, 1)
    case None => None
    case Some((affected, p1)) =>
      match ReadLenEncInt(data, p1)
      case None => None
      case Some((inserted, p2)) =>
        match ReadFixed(data, p2, 2)
        case None => None
        case Some((flags, p3)) =>
          match ReadFixed(data, p3, 2)
          case None => None
          case Some((warnings, p4)) => Some((PacketOk(affected, inserted, flags, warnings, [], []), p4))
  }

  lemma NextInt(data: seq<byte>, pos: nat, i: uint64, more: seq<byte>)
    requires At(data, pos, LenEncInt(i) + more)
    ensures ReadLenEncInt(data, pos) == Some((i, pos + LenEncIntSize(i)))
    ensures At(data, pos + LenEncIntSize(i), more)
  {
    AtSplit(data, pos, LenEncInt(i), more);
    LenEncIntRoundTrip(data, pos, i);
  }

  lemma OkHeadRoundTrip(data: seq<byte>, ok: PacketOk, header: byte)
    requires At(data, 0, OkHead(ok, header))
    ensures ParseOkHead(data) == Some((ok.(info := [], sessionState := []), |OkHead(ok, header)|))
  {
    PowersOf256();
    var n3 := PutLe(ok.statusFlags, 2) + PutLe(ok.warnings, 2);
    var n2 := LenEncInt(ok.lastInsertId) + n3;
    var n1 := LenEncInt(ok.affectedRows) + n2;
    AtSplit(data, 0, [header], n1);
    NextInt(data, 1, ok.affectedRows, n2);
    var p1 := 1 + LenEncIntSize(ok.affectedRows);
    NextInt(data, p1, ok.lastInsertId, n3);
    var p2 := p1 + LenEncIntSize(ok.lastInsertId);
    AtSplit(data, p2, PutLe(ok.statusFlags, 2), PutLe(ok.warnings, 2));
    FixedRoundTrip(data, p2, ok.statusFlags, 2);
    FixedRoundTrip(data, p2 + 2, ok.warnings, 2);
  }

  /** `readLenEncInfo`: the text, or nothing, and where reading goes on. */
  function ReadInfo(data: seq<byte>, pos: nat): (r: (seq<byte>, nat)) {
    match ReadLenEncString(data, pos)
    case None => ([], pos)
    case Some(s) => s
  }

  /** Info written to the end of the packet, without a length, comes back only if there is none. */
  lemma BareInfoIsLost(data: seq<byte>, pos: nat)
    requires pos <= |data|
    ensures ReadInfo(data, pos).0 == data[pos..] <==> data[pos..] == []
  {
    match ReadLenEncString(data, pos)
    case None =>
    case Some((s, next)) =>
      assert |s| < |data[pos..]|;
  }

  /** What a parser finds in a GTID state change that ends the packet. */
  lemma GtidsAt(data: seq<byte>, pos: nat, gtids: seq<byte>)
    requires |gtids| + 64 < 0x8000_0000_0000_0000 && Ends(data, pos, TrackedGtids(gtids))
    ensures data[pos] == SESSION_TRACK_GTIDS
    ensures var size := ReadLenEncInt(data, pos + 1);
            && size.Some? && size.value.0 < 0x8000_0000_0000_0000 && size.value.1 < |data|
            && ReadLenEncString(data, size.value.1 + 1) == Some((gtids, |data|))
  {
    var inner := [0] + LenEncString(gtids);
    AtSplit(data, pos, [SESSION_TRACK_GTIDS], LenEncString(inner));
    NextInt(data, pos + 1, |inner|, inner);
    var next := pos + 1 + LenEncIntSize(|inner|);
    AtSplit(data, next, [0], LenEncString(gtids));
    LenEncStringRoundTrip(data, next + 1, gtids);
  }

  /** The session state part of `parseOKPacket`: the GTIDs of the last change of that kind. */
  method ParseSessionState(data: seq<byte>, pos: nat, ghost gtids: seq<byte>) returns (r: Option<seq<byte>>)
    ensures |gtids| + 64 < 0x8000_0000_0000_0000 && Ends(data, pos, TrackedBytes(gtids)) ==> r == Some(gtids)
  {
    ghost var good := |gtids| + 64 < 0x8000_0000_0000_0000 && Ends(data, pos, TrackedBytes(gtids));
    if good {
      NextInt(data, pos, |TrackedGtids(gtids)|, TrackedGtids(gtids));
    }
    var length := ReadLenEncInt(data, pos);
    if length.None? || length.value.0 == 0 {
      return Some([]);
    }
    var p := length.value.1;
    var found: seq<byte> := [];
    ghost var unread := true;
    while true
      invariant good && unread ==> Ends(data, p, TrackedGtids(gtids))
      invariant good && !unread ==> p == |data| && found == gtids
      decreases |data| - p
    {
      if good && unread {
        GtidsAt(data, p, gtids);
      }
      if p >= |data| {
        break;
      }
      var kind := data[p];
      var size := ReadLenEncInt(data, p + 1);
      if size.None? || size.value.0 >= 0x8000_0000_0000_0000 {
        return None;
      }
      p := size.value.1;
      if kind != SESSION_TRACK_GTIDS {
        p := p + size.value.0;
        continue;
      }
      if p >= |data| {
        return None;
      }
      var text := ReadLenEncString(data, p + 1);
      if text.None? {
        return None;
      }
      found, p := text.value.0, text.value.1;
      unread := false;
    }
    return Some(found);
  }

  /** `parseOKPacket`; `queryInfo` is the connection's `enableQueryInfo`. */
  method ParseOk(data: seq<byte>, sessionTrack: bool, queryInfo: bool, ghost ok: PacketOk, ghost header: byte)
    returns (r: Option<PacketOk>)
    ensures ok.Sized() && data == OkBytes(ok, header, sessionTrack) ==>
              && r.Some?
              && r.value.(info := []) == Delivered(ok, sessionTrack)
              && (r.value.info == ok.info <==> ok.info == [] || (queryInfo && sessionTrack))
  {
    ghost var good := ok.Sized() && data == OkBytes(ok, header, sessionTrack);
    if good {
      OkParts(data, ok, header, sessionTrack);
    }
    var head := ParseOkHead(data);
    if head.None? {
      return None;
    }
    var (packet, pos) := head.value;
    var (info, next) := ReadInfo(data, pos);
    if queryInfo {
      packet := packet.(info := info);
    }
    if sessionTrack && packet.StateChanged() {
      var gtids := ParseSessionState(data, next, ok.sessionState);
      if gtids.None? {
        return None;
      }
      packet := packet.(sessionState := gtids.value);
    }
    return Some(packet);
  }

  /** What arrives of an OK packet, apart from its info: GTIDs only where both sides track the session. */
  ghost function Delivered(ok: PacketOk, sessionTrack: bool): (r: PacketOk) {
    ok.(info := [], sessionState := if sessionTrack && ok.StateChanged() then ok.sessionState else [])
  }

  lemma OkParts(data: seq<byte>, ok: PacketOk, header: byte, sessionTrack: bool)
    requires ok.Sized() && data == OkBytes(ok, header, sessionTrack)
    ensures ParseOkHead(data) == Some((ok.(info := [], sessionState := []), |OkHead(ok, header)|))
    ensures var (info, next) := ReadInfo(data, |OkHead(ok, header)|);
            && (!sessionTrack ==> (info == ok.info <==> ok.info == []))
            && (sessionTrack ==> info == ok.info)
            && (sessionTrack && ok.StateChanged() ==> Ends(data, next, TrackedBytes(ok.sessionState)))
  {
    hide OkHead, ParseOkHead, TrackedBytes, ReadLenEncString, LenEncInt;
    var head, pos := OkHead(ok, header), |OkHead(ok, header)|;
    if !sessionTrack {
      AtParts(head, ok.info, []);
      assert head + (ok.info + []) == data;
      assert data[pos..] == ok.info;
      BareInfoIsLost(data, pos);
    } else {
      var info, more := LenEncString(ok.info), if ok.StateChanged() then TrackedBytes(ok.sessionState) else [];
      AtParts(head, info, more);
      LenEncStringRoundTrip(data, pos, ok.info);
    }
    OkHeadRoundTrip(data, ok, header);
  }
}
