/** Query responses from end to end: what a server writes, and what a client makes of it. */
module WireResults {
  import opened Bytes
  import opened Options
  import opened WireEncoding
  import opened WirePackets
  import opened WireRows
  import opened WirePayloads

  /** The capabilities the two sides agreed on, and whether the client keeps info texts. */
  datatype Caps = Caps(deprecateEof: bool, sessionTrack: bool, queryInfo: bool)

  /** How a result set ends: all sent, or cut off by an error packet. */
  datatype Ending = End(ok: PacketOk) | Broken(packet: seq<byte>)

  datatype Response =
    | Done(ok: PacketOk)
    | Refused(packet: seq<byte>)
    | ResultSet(columns: seq<Column>, fieldFlags: uint16, rows: seq<seq<Value>>, ending: Ending)

  /** The payload that ends a result set. */
  function EndBytes(ok: PacketOk, caps: Caps): (r: seq<byte>)
    requires ok.Sized()
  {
    if caps.deprecateEof then OkBytes(ok, EOF_PACKET, caps.sessionTrack) else EofBytes(ok.statusFlags, ok.warnings)
  }

  predicate ErrorPacket(packet: seq<byte>) {
    packet != [] && packet[0] == ERR_PACKET
  }

  predicate GoodColumns(columns: seq<Column>) {
    && 1 <= |columns| < 0x8000_0000_0000_0000
    && forall k :: 0 <= k < |columns| ==> AllSized(columns[k].Names())
  }

  predicate GoodRows(rows: seq<seq<Value>>, width: nat) {
    forall k :: 0 <= k < |rows| ==> |rows[k]| == width && SizedRow(rows[k])
  }

  /** The packet that ends a result set is taken for its end if and only if it is shorter than a full packet. */
  lemma EndIsEof(ok: PacketOk, caps: Caps)
    requires ok.Sized()
    ensures IsEof(EndBytes(ok, caps), caps.deprecateEof) <==> |EndBytes(ok, caps)| < MAX_PACKET_SIZE
  {
    assert EndBytes(ok, caps)[0] == EOF_PACKET;
  }

  predicate GoodEnding(ending: Ending, caps: Caps) {
    match ending
    case Broken(packet) => ErrorPacket(packet)
    case End(ok) => ok.Sized()
  }

  /** The client sees where the response ends. */
  predicate Closed(response: Response, caps: Caps)
    requires Good(response, caps)
  {
    response.ResultSet? ==> ClosedEnding(response.ending, caps)
  }

  predicate ClosedEnding(ending: Ending, caps: Caps)
    requires GoodEnding(ending, caps)
  {
    ending.End? ==> |EndBytes(ending.ok, caps)| < MAX_PACKET_SIZE
  }

  predicate Good(response: Response, caps: Caps) {
    match response
    case Done(ok) => ok.Sized()
    case Refused(packet) => ErrorPacket(packet)
    case ResultSet(columns, _, rows, ending) =>
      GoodColumns(columns) && GoodRows(rows, |columns|) && GoodEnding(ending, caps)
  }

  function ColumnPackets(columns: seq<Column>): (r: seq<seq<byte>>)
    requires forall k :: 0 <= k < |columns| ==> AllSized(columns[k].Names())
  {
    seq(|columns|, k requires 0 <= k < |columns| => ColumnBytes(columns[k]))
  }

  function RowPackets(rows: seq<seq<Value>>, width: nat): (r: seq<seq<byte>>)
    requires GoodRows(rows, width)
  {
    seq(|rows|, k requires 0 <= k < |rows| => RowBytes(rows[k]))
  }

  /** The packets before the first row. */
  function FieldPackets(columns: seq<Column>, fieldFlags: uint16, caps: Caps): (r: seq<seq<byte>>)
    requires GoodColumns(columns)
  {
    [LenEncInt(|columns|)] + ColumnPackets(columns) + if caps.deprecateEof then [] else [EofBytes(fieldFlags, 0)]
  }

  function EndPacket(ending: Ending, caps: Caps): (r: seq<byte>)
    requires GoodEnding(ending, caps)
  {
    match ending case Broken(packet) => packet case End(ok) => EndBytes(ok, caps)
  }

  /** The payloads of a response, in the order they are sent. */
  function Packets(response: Response, caps: Caps): (r: seq<seq<byte>>)
    requires Good(response, caps)
  {
    match response
    case Done(ok) => [OkBytes(ok, OK_PACKET, caps.sessionTrack)]
    case Refused(packet) => [packet]
    case ResultSet(columns, fieldFlags, rows, ending) =>
      FieldPackets(columns, fieldFlags, caps) + RowPackets(rows, |columns|) + [EndPacket(ending, caps)]
  }

  // ----- the server -----

  /** `sendColumnCount` */
  method WriteColumnCount(c: Conn, count: uint64)
    requires c.policy == EphemeralUnused
    modifies c
    ensures c.policy == EphemeralUnused && c.input == old(c.input)
    ensures (c.output, c.sequence) == SentAll(old(c.output), [LenEncInt(count)], old(c.sequence))
  {
    hide LenEncInt, LenEncIntSize, SentAll;
    var data := c.StartEphemeralPacket(LenEncIntSize(count));
    assert [] + LenEncInt(count) == LenEncInt(count);
    var pos := PutInt(data, PACKET_HEADER_SIZE, PACKET_HEADER_SIZE, count, []);
    assert data[4..] == data[..][4..pos];
    c.WriteEphemeralPacket(data);
  }

  /** `writeFields` */
  method WriteFields(c: Conn, columns: seq<Column>, statusFlags: uint16, caps: Caps)
    requires c.policy == EphemeralUnused && GoodColumns(columns)
    modifies c
    ensures c.policy == EphemeralUnused && c.input == old(c.input)
    ensures (c.output, c.sequence) == SentAll(old(c.output), FieldPackets(columns, statusFlags, caps), old(c.sequence))
  {
    ghost var (out0, seq0) := (c.output, c.sequence);
    ghost var packets := ColumnPackets(columns);
    WriteColumnCount(c, |columns|);
    ghost var sent := [LenEncInt(|columns|)];
    for i := 0 to |columns|
      invariant c.policy == EphemeralUnused && c.input == old(c.input)
      invariant (c.output, c.sequence) == SentAll(out0, sent + packets[..i], seq0)
    {
      SentConcat(out0, sent + packets[..i], [packets[i]], seq0);
      assert sent + packets[..i] + [packets[i]] == sent + packets[..i + 1];
      WriteColumn(c, columns[i]);
    }
    assert packets[..|columns|] == packets;
    if !caps.deprecateEof {
      SentConcat(out0, sent + packets, [EofBytes(statusFlags, 0)], seq0);
      WriteEof(c, statusFlags, 0);
    } else {
      assert sent + packets + [] == sent + packets;
    }
  }

  /** `writeRows` */
  method WriteRows(c: Conn, rows: seq<seq<Value>>, ghost width: nat)
    requires c.policy == EphemeralUnused && GoodRows(rows, width)
    modifies c
    ensures c.policy == EphemeralUnused && c.input == old(c.input)
    ensures (c.output, c.sequence) == SentAll(old(c.output), RowPackets(rows, width), old(c.sequence))
  {
    hide RowBytes;
    ghost var (out0, seq0) := (c.output, c.sequence);
    ghost var packets := RowPackets(rows, width);
    for i := 0 to |rows|
      invariant c.policy == EphemeralUnused && c.input == old(c.input)
      invariant (c.output, c.sequence) == SentAll(out0, packets[..i], seq0)
    {
      SentConcat(out0, packets[..i], [packets[i]], seq0);
      assert packets[..i] + [packets[i]] == packets[..i + 1];
      WriteRow(c, rows[i]);
    }
    assert packets[..|rows|] == packets;
  }

  /** `flags |= ServerMoreResultsExists` when there is more. */
  function WithMore(statusFlags: uint16, more: bool): (r: uint16)
    ensures r / 8 % 2 == 1 <==> more || statusFlags / 8 % 2 == 1
    ensures r / 16 == statusFlags / 16 && r % 8 == statusFlags % 8
  {
    if more && statusFlags / 8 % 2 == 0 then statusFlags + 8 else statusFlags
  }

  /** What the server says at the end of a result set. */
  datatype Tail = Tail(more: bool, affectedRows: uint64, lastInsertId: uint64, warnings: uint16, info: seq<byte>) {
    /** The same as an OK packet, on a connection with these status flags. */
    function Ok(statusFlags: uint16): (r: PacketOk)
      ensures r.MoreResults() <==> more || statusFlags / 8 % 2 == 1
    {
      PacketOk(affectedRows, lastInsertId, WithMore(statusFlags, more), warnings, info, [])
    }
  }

  /** `writeEndResult` */
  method WriteEndResult(c: Conn, statusFlags: uint16, tail: Tail, caps: Caps)
    requires c.policy == EphemeralUnused && tail.Ok(statusFlags).Sized()
    modifies c
    ensures c.policy == EphemeralUnused && c.input == old(c.input)
    ensures (c.output, c.sequence) == SentAll(old(c.output), [EndBytes(tail.Ok(statusFlags), caps)], old(c.sequence))
  {
    var flags := WithMore(statusFlags, tail.more);
    if caps.deprecateEof {
      WriteOk(c, PacketOk(tail.affectedRows, tail.lastInsertId, flags, tail.warnings, tail.info, []), EOF_PACKET,
              caps.sessionTrack);
    } else {
      WriteEof(c, flags, tail.warnings);
    }
  }

  /** The result set part of `execQuery`: fields, rows, end. */
  method WriteResultSet(c: Conn, columns: seq<Column>, statusFlags: uint16, rows: seq<seq<Value>>, tail: Tail,
                        caps: Caps)
    requires c.policy == EphemeralUnused
    requires Good(ResultSet(columns, statusFlags, rows, End(tail.Ok(statusFlags))), caps)
    modifies c
    ensures c.policy == EphemeralUnused && c.input == old(c.input)
    ensures (c.output, c.sequence)
         == SentAll(old(c.output), Packets(ResultSet(columns, statusFlags, rows, End(tail.Ok(statusFlags))), caps),
                    old(c.sequence))
  {
    ghost var (out0, seq0) := (c.output, c.sequence);
    ghost var head, body := FieldPackets(columns, statusFlags, caps), RowPackets(rows, |columns|);
    WriteFields(c, columns, statusFlags, caps);
    SentConcat(out0, head, body, seq0);
    WriteRows(c, rows, |columns|);
    SentConcat(out0, head + body, [EndBytes(tail.Ok(statusFlags), caps)], seq0);
    WriteEndResult(c, statusFlags, tail, caps);
  }

  // ----- the client -----

  /** What is still to come: the payloads from `next` on, then `rest`; `final` is the sequence number they end with. */
  datatype Script = Script(payloads: seq<seq<byte>>, rest: seq<byte>, final: byte)

  ghost predicate Ahead(c: Conn, script: Script, next: nat)
    reads c
  {
    && next <= |script.payloads|
    && Carries(c.input, c.sequence, script.payloads[next..], script.rest)
    && SentAll([], script.payloads[next..], c.sequence).1 == script.final
  }

  /** Nothing that is still to be read is the end of a result set. */
  ghost predicate Endless(input: seq<byte>, sequence: byte, caps: Caps)
    decreases |input|
  {
    match ReadMessage(input, sequence)
    case None => true
    case Some(m) =>
      (m.payload != [] ==> !IsEof(m.payload, caps.deprecateEof)) && Endless(m.rest, m.sequence, caps)
  }

  lemma {:induction false} EndlessRun(input: seq<byte>, sequence: byte, payloads: seq<seq<byte>>, caps: Caps)
    requires Carries(input, sequence, payloads, [])
    requires forall k :: 0 <= k < |payloads| ==> payloads[k] != [] && !IsEof(payloads[k], caps.deprecateEof)
    ensures Endless(input, sequence, caps)
    decreases |payloads|
  {
    if payloads == [] {
      assert input == [];
    } else {
      CarriesNext(input, sequence, payloads, []);
      var m := ReadMessage(input, sequence).value;
      EndlessRun(m.rest, m.sequence, payloads[1..], caps);
    }
  }

  /** `readEphemeralPacket` of a packet that is looked at and then recycled. */
  method NextPacket(c: Conn, ghost good: bool, ghost script: Script, ghost next: nat) returns (r: Option<seq<byte>>)
    requires c.policy == EphemeralUnused
    requires good ==> Ahead(c, script, next) && next < |script.payloads|
    modifies c
    ensures r.Some? ==> c.policy == EphemeralUnused && |c.input| < |old(c.input)|
    ensures good ==> r == Some(script.payloads[next]) && Ahead(c, script, next + 1)
    ensures match ReadMessage(old(c.input), old(c.sequence))
            case None => r == None
            case Some(m) => r == Some(m.payload) && c.input == m.rest && c.sequence == m.sequence
  {
    if good {
      CarriesNext(c.input, c.sequence, script.payloads[next..], script.rest);
      assert script.payloads[next..][1..] == script.payloads[next + 1..];
    }
    r := c.ReadEphemeralPacket();
    if r.Some? {
      c.RecycleReadPacket();
    }
  }

  datatype QueryError =
    | ServerLost | NotImplemented | RowCountExceeded | BadPacket(why: ParseError)
    | ServerError(packet: seq<byte>) | Unexpected(packet: seq<byte>)

  datatype QueryResult = QueryResult(
    columns: seq<Column>, rows: seq<seq<Value>>, affectedRows: uint64, insertId: uint64, statusFlags: uint16,
    info: seq<byte>, sessionState: seq<byte>)

  datatype Outcome = Answer(result: QueryResult, more: bool, warnings: uint16) | Failure(error: QueryError)

  datatype Columns = Columns(columns: seq<Column>) | NoColumns(error: QueryError)

  ghost const NO_COLUMN: Column := Column([], [], [], [], [], 0, 0, 0, 0, 0)

  /** `readColumnDefinition` */
  method NextColumn(c: Conn, ghost good: bool, ghost column: Column, ghost script: Script, ghost next: nat)
    returns (r: Columns)
    requires c.policy == EphemeralUnused
    requires good ==> Ahead(c, script, next) && next < |script.payloads|
    requires good ==> AllSized(column.Names()) && script.payloads[next] == ColumnBytes(column)
    modifies c
    ensures r.Columns? ==> c.policy == EphemeralUnused && |r.columns| == 1
    ensures good ==> r == Columns([column]) && Ahead(c, script, next + 1)
  {
    if good {
      ColumnRoundTrip(column);
    }
    var data := NextPacket(c, good, script, next);
    if data.None? {
      return NoColumns(ServerLost);
    }
    var read := ReadColumn(data.value);
    if read.None? {
      return NoColumns(BadPacket(Malformed));
    }
    return Columns([read.value]);
  }

  /** The column loop of `ReadQueryResult`. */
  method ReadColumns(c: Conn, n: nat, ghost good: bool, ghost columns: seq<Column>, ghost script: Script,
                     ghost start: nat)
    returns (r: Columns)
    requires c.policy == EphemeralUnused
    requires good ==> Ahead(c, script, start) && n == |columns| && ColumnsFrom(script, start, columns)
    modifies c
    ensures r.Columns? ==> c.policy == EphemeralUnused && |r.columns| == n
    ensures good ==> r == Columns(columns) && Ahead(c, script, start + n)
  {
    hide Ahead, ColumnBytes;
    var read: seq<Column> := [];
    for i := 0 to n
      invariant c.policy == EphemeralUnused && |read| == i
      invariant good ==> Ahead(c, script, start + i) && read == columns[..i]
    {
      var column := NextColumn(c, good, if good then columns[i] else NO_COLUMN, script, start + i);
      if column.NoColumns? {
        return column;
      }
      read := read + column.columns;
    }
    assert good ==> columns[..n] == columns;
    return Columns(read);
  }

  ghost predicate ColumnsFrom(script: Script, start: nat, columns: seq<Column>) {
    && start + |columns| <= |script.payloads|
    && (forall k :: 0 <= k < |columns| ==> AllSized(columns[k].Names()))
    && forall k :: 0 <= k < |columns| ==> script.payloads[start + k] == ColumnBytes(columns[k])
  }

  ghost predicate RowsFrom(script: Script, start: nat, rows: seq<seq<Value>>, width: nat) {
    && start + |rows| < |script.payloads|
    && GoodRows(rows, width)
    && forall k :: 0 <= k < |rows| ==> script.payloads[start + k] == RowBytes(rows[k])
  }

  /** `drainResults`: packets up to the end of the result set, or its error. */
  method DrainResults(c: Conn, caps: Caps, ghost good: bool, ghost script: Script, ghost start: nat)
    returns (r: Option<QueryError>)
    requires c.policy == EphemeralUnused
    requires good ==> Ahead(c, script, start) && StopsAtEnd(script, start, caps)
    modifies c
    ensures good ==>
              && Ahead(c, script, |script.payloads|) && c.policy == EphemeralUnused
              && var last := script.payloads[|script.payloads| - 1];
              r == if IsEof(last, caps.deprecateEof) then None else Some(ServerError(last))
  {
    ghost var next := start;
    while true
      invariant c.policy == EphemeralUnused
      invariant good ==> Ahead(c, script, next) && StopsAtEnd(script, next, caps)
      decreases |c.input|
    {
      var data := NextPacket(c, good, script, next);
      if data.None? {
        return Some(ServerLost);
      }
      if data.value == [] {
        return Some(BadPacket(OutOfRange));
      }
      if IsEof(data.value, caps.deprecateEof) {
        return None;
      }
      if IsErr(data.value) {
        return Some(ServerError(data.value));
      }
      next := next + 1;
    }
  }

  predicate IsEnd(data: seq<byte>, caps: Caps) {
    data != [] && (IsEof(data, caps.deprecateEof) || IsErr(data))
  }

  /** The last payload, and no other from `start` on, ends a result set; none is empty. */
  ghost predicate StopsAtEnd(script: Script, start: nat, caps: Caps) {
    && start < |script.payloads|
    && forall k :: start <= k < |script.payloads| ==>
                     script.payloads[k] != [] && (IsEnd(script.payloads[k], caps) <==> k == |script.payloads| - 1)
  }

  datatype Fetched = Fetched(rows: seq<seq<Value>>, last: seq<byte>) | NotFetched(error: QueryError)

  datatype RowStep = NextRow(row: seq<Value>) | LastPacket(packet: seq<byte>) | Stop(error: QueryError)

  /** One round of the row loop; `full` when as many rows are read as are wanted. */
  method ReadRow(c: Conn, width: nat, full: bool, caps: Caps,
                 ghost good: bool, ghost rows: seq<seq<Value>>, ghost script: Script, ghost start: nat, ghost i: nat)
    returns (r: RowStep)
    requires c.policy == EphemeralUnused
    requires good ==> Ahead(c, script, start + i) && RowsThenEnd(script, start, rows, width, caps) && i <= |rows|
    modifies c
    ensures !r.Stop? ==> c.policy == EphemeralUnused && |c.input| < |old(c.input)|
    ensures good ==>
              && r == RowOutcome(rows, script.payloads[start + |rows|], i, full) && c.policy == EphemeralUnused
              && Ahead(c, script, if r.NextRow? then start + i + 1 else |script.payloads|)
    ensures old(Endless(c.input, c.sequence, caps)) ==>
              !r.LastPacket? && (r.NextRow? ==> Endless(c.input, c.sequence, caps))
  {
    hide ReadMessage;
    var data := NextPacket(c, good, script, start + i);
    if data.None? {
      return Stop(ServerLost);
    }
    if data.value == [] {
      return Stop(BadPacket(OutOfRange));
    }
    if IsEof(data.value, caps.deprecateEof) {
      return LastPacket(data.value);
    }
    if IsErr(data.value) {
      return Stop(ServerError(data.value));
    }
    if full {
      var error := DrainResults(c, caps, good, script, start + i + 1);
      return Stop(if error.Some? then error.value else RowCountExceeded);
    }
    var row := ParseRow(data.value, width, if good && i < |rows| then rows[i] else []);
    if row.Bad? {
      return Stop(BadPacket(row.error));
    }
    return NextRow(row.value);
  }

  ghost function RowOutcome(rows: seq<seq<Value>>, last: seq<byte>, i: nat, full: bool): (r: RowStep)
    requires last != [] && i <= |rows|
  {
    if i < |rows| && !full then NextRow(rows[i])
    else if IsErr(last) then Stop(ServerError(last))
    else if i < |rows| then Stop(RowCountExceeded)
    else LastPacket(last)
  }

  /** The row loop of `ReadQueryResult`, up to the packet that ends it. */
  method ReadRows(c: Conn, width: nat, maxrows: int, caps: Caps,
                  ghost good: bool, ghost rows: seq<seq<Value>>, ghost script: Script, ghost start: nat)
    returns (r: Fetched)
    requires c.policy == EphemeralUnused
    requires good ==> Ahead(c, script, start) && RowsThenEnd(script, start, rows, width, caps)
    modifies c
    ensures good ==>
              && Ahead(c, script, |script.payloads|) && c.policy == EphemeralUnused
              && r == RowsOutcome(rows, script.payloads[start + |rows|], maxrows)
    ensures old(Endless(c.input, c.sequence, caps)) ==> r.NotFetched?
  {
    hide Ahead, Endless;
    var read: seq<seq<Value>> := [];
    ghost var i, next := 0, start;
    while true
      invariant c.policy == EphemeralUnused && i == |read| && next == start + i
      invariant good ==> i <= |rows| && read == rows[..i] && Ahead(c, script, next)
      invariant good && maxrows >= 0 ==> i <= maxrows
      invariant old(Endless(c.input, c.sequence, caps)) ==> Endless(c.input, c.sequence, caps)
      decreases |c.input|
    {
      var step := ReadRow(c, width, |read| == maxrows, caps, good, rows, script, start, i);
      match step {
        case Stop(error) => return NotFetched(error);
        case LastPacket(packet) =>
          WholePrefix(rows);
          return Fetched(read, packet);
        case NextRow(row) =>
          if good {
            LongerPrefix(rows, i);
          }
          read := read + [row];
          i, next := i + 1, next + 1;
      }
    }
  }

  ghost predicate RowsThenEnd(script: Script, start: nat, rows: seq<seq<Value>>, width: nat, caps: Caps) {
    && RowsFrom(script, start, rows, width) && start + |rows| + 1 == |script.payloads|
    && StopsAtEnd(script, start, caps)
  }

  ghost function RowsOutcome(rows: seq<seq<Value>>, last: seq<byte>, maxrows: int): (r: Fetched)
    requires last != []
  {
    if IsErr(last) then NotFetched(ServerError(last))
    else if maxrows < 0 || |rows| <= maxrows then Fetched(rows, last)
    else NotFetched(RowCountExceeded)
  }

  // ----- a whole response -----

  /** Where the rows start. */
  ghost function RowsStart(columns: seq<Column>, caps: Caps): (r: nat) {
    1 + |columns| + if caps.deprecateEof then 0 else 1
  }

  lemma EndEnds(ending: Ending, caps: Caps)
    requires GoodEnding(ending, caps) && ClosedEnding(ending, caps)
    ensures var last := EndPacket(ending, caps);
            && IsEnd(last, caps)
            && (IsErr(last) <==> ending.Broken?)
  {
    if ending.End? && caps.deprecateEof {
      assert EndBytes(ending.ok, caps)[0] == OkHead(ending.ok, EOF_PACKET)[0] == EOF_PACKET;
    }
  }

  lemma ResultSetShape(response: Response, caps: Caps, script: Script)
    requires response.ResultSet? && Good(response, caps) && script.payloads == Packets(response, caps)
    ensures script.payloads[0] == LenEncInt(|response.columns|)
    ensures ColumnsFrom(script, 1, response.columns)
    ensures !caps.deprecateEof ==> script.payloads[1 + |response.columns|] == EofBytes(response.fieldFlags, 0)
    ensures RowsFrom(script, RowsStart(response.columns, caps), response.rows, |response.columns|)
    ensures RowsStart(response.columns, caps) + |response.rows| + 1 == |script.payloads|
    ensures script.payloads[|script.payloads| - 1] == EndPacket(response.ending, caps)
  {
    hide LenEncInt, ColumnBytes, EofBytes, RowBytes, EndBytes;
    var fields := FieldPackets(response.columns, response.fieldFlags, caps);
    var rows := RowPackets(response.rows, |response.columns|);
    assert |fields| == RowsStart(response.columns, caps);
    assert forall k :: 0 <= k < |rows| ==> (fields + rows)[|fields| + k] == rows[k];
    assert forall k :: 0 <= k < |fields| + |rows| ==> script.payloads[k] == (fields + rows)[k];
  }

  lemma RowsStop(script: Script, start: nat, rows: seq<seq<Value>>, width: nat, ending: Ending, caps: Caps)
    requires width > 0 && RowsFrom(script, start, rows, width) && start + |rows| + 1 == |script.payloads|
    requires GoodEnding(ending, caps) && ClosedEnding(ending, caps)
    requires script.payloads[start + |rows|] == EndPacket(ending, caps)
    ensures RowsThenEnd(script, start, rows, width, caps)
  {
    EndEnds(ending, caps);
    forall k | start <= k < |script.payloads|
      ensures script.payloads[k] != [] && (IsEnd(script.payloads[k], caps) <==> k == start + |rows|)
    {
      if k < start + |rows| {
        RowIsNotAnEnd(rows[k - start], caps.deprecateEof);
        assert script.payloads[start + (k - start)] == RowBytes(rows[k - start]);
      }
    }
  }

  /** The packet that ends a result set, read as the connection's capabilities say. */
  method ReadEnding(packet: seq<byte>, columns: seq<Column>, rows: seq<seq<Value>>, caps: Caps, ghost ok: PacketOk)
    returns (r: Outcome)
    ensures ok.Sized() && packet == EndBytes(ok, caps) ==> Concludes(r, columns, rows, ok, caps)
  {
    if !caps.deprecateEof {
      EofRoundTrip(ok.statusFlags, ok.warnings);
      var eof := ParseEof(packet);
      if eof.None? {
        return Failure(BadPacket(Malformed));
      }
      var (warnings, flags) := eof.value;
      return Answer(QueryResult(columns, rows, 0, 0, flags, [], []), flags / 8 % 2 == 1, warnings);
    }
    var read := ParseOk(packet, caps.sessionTrack, caps.queryInfo, ok, EOF_PACKET);
    if read.None? {
      return Failure(BadPacket(Malformed));
    }
    var packetOk := read.value;
    return Answer(QueryResult(columns, rows, 0, 0, packetOk.statusFlags, packetOk.info, packetOk.sessionState),
                  packetOk.MoreResults(), packetOk.warnings);
  }

  /** The answer carries these columns and rows, and what the end packet can say of `ok`. */
  ghost predicate Concludes(r: Outcome, columns: seq<Column>, rows: seq<seq<Value>>, ok: PacketOk, caps: Caps) {
    && r.Answer? && r.result.columns == columns && r.result.rows == rows
    && r.result.statusFlags == ok.statusFlags && r.warnings == ok.warnings && r.more == ok.MoreResults()
    && r.result.affectedRows == 0 && r.result.insertId == 0
    && r.result.sessionState == (if caps.deprecateEof then Delivered(ok, caps.sessionTrack).sessionState else [])
    && (r.result.info == ok.info <==>
        ok.info == [] || (caps.deprecateEof && caps.sessionTrack && caps.queryInfo))
  }

  /** What a client should make of a response. */
  ghost predicate Understood(r: Outcome, response: Response, caps: Caps, maxrows: int) {
    match response
    case Refused(packet) => r == Failure(ServerError(packet))
    case Done(ok) =>
      && r.Answer? && r.more == ok.MoreResults() && r.warnings == ok.warnings
      && r.result.(info := []) == QueryResult([], [], ok.affectedRows, ok.lastInsertId, ok.statusFlags, [],
                                              Delivered(ok, caps.sessionTrack).sessionState)
      && (r.result.info == ok.info <==> ok.info == [] || (caps.sessionTrack && caps.queryInfo))
    case ResultSet(columns, _, rows, ending) =>
      match ending
      case Broken(packet) => r == Failure(ServerError(packet))
      case End(ok) =>
        if maxrows < 0 || |rows| <= maxrows then Concludes(r, columns, rows, ok, caps)
        else r == Failure(RowCountExceeded)
  }

  /** Rows and an end packet that is not seen as one. */
  lemma RowsNeverEnd(c: Conn, script: Script, start: nat, rows: seq<seq<Value>>, width: nat, ending: Ending, caps: Caps)
    requires width > 0 && RowsFrom(script, start, rows, width) && start + |rows| + 1 == |script.payloads|
    requires GoodEnding(ending, caps) && !ClosedEnding(ending, caps)
    requires script.payloads[start + |rows|] == EndPacket(ending, caps)
    requires Ahead(c, script, start) && script.rest == []
    ensures Endless(c.input, c.sequence, caps)
  {
    hide Endless, Carries;
    EndIsEof(ending.ok, caps);
    assert EndPacket(ending, caps) != [];
    var left := script.payloads[start..];
    forall k | 0 <= k < |left|
      ensures left[k] != [] && !IsEof(left[k], caps.deprecateEof)
    {
      if k < |rows| {
        RowIsNotAnEnd(rows[k], caps.deprecateEof);
        assert left[k] == script.payloads[start + k] == RowBytes(rows[k]);
      }
    }
    EndlessRun(c.input, c.sequence, left, caps);
  }

  /** The rest of `ReadQueryResult` once the number of columns is known. */
  method ReadResultSet(c: Conn, n: nat, maxrows: int, caps: Caps,
                       ghost good: bool, ghost response: Response, ghost script: Script)
    returns (r: Outcome)
    requires c.policy == EphemeralUnused
    requires good ==> response.ResultSet? && Good(response, caps) && script.payloads == Packets(response, caps)
    requires good ==> n == |response.columns| && Ahead(c, script, 1)
    modifies c
    ensures good && Closed(response, caps) ==>
              && Understood(r, response, caps, maxrows)
              && Ahead(c, script, |script.payloads|) && c.policy == EphemeralUnused
    ensures good && !Closed(response, caps) && script.rest == [] ==> r.Failure?
  {
    hide Ahead, Packets, Endless, ReadMessage;
    ghost var columns, rows, start, closed := [], [], 0, false;
    if good {
      ResultSetShape(response, caps, script);
      columns, rows, start := response.columns, response.rows, RowsStart(response.columns, caps);
      closed := Closed(response, caps);
      if closed {
        RowsStop(script, start, rows, n, response.ending, caps);
        EndEnds(response.ending, caps);
      }
    }
    var fields := ReadColumns(c, n, good, columns, script, 1);
    if fields.NoColumns? {
      return Failure(fields.error);
    }
    if !caps.deprecateEof {
      var data := NextPacket(c, good, script, 1 + n);
      if data.None? {
        return Failure(ServerLost);
      }
      if data.value == [] {
        return Failure(BadPacket(OutOfRange));
      }
      if !IsEof(data.value, false) {
        return Failure(if IsErr(data.value) then ServerError(data.value) else Unexpected(data.value));
      }
    }
    if good && !closed && script.rest == [] {
      RowsNeverEnd(c, script, start, rows, n, response.ending, caps);
    }
    var fetched := ReadRows(c, n, maxrows, caps, good && closed, rows, script, start);
    if fetched.NotFetched? {
      return Failure(fetched.error);
    }
    ghost var ok := if good && response.ending.End? then response.ending.ok else PacketOk(0, 0, 0, 0, [], []);
    r := ReadEnding(fetched.last, fields.columns, fetched.rows, caps, ok);
  }

  /** `ReadQueryResult`, with every field wanted */
  method ReadQueryResult(c: Conn, maxrows: int, caps: Caps, ghost response: Response, ghost rest: seq<byte>)
    returns (r: Outcome)
    requires c.policy == EphemeralUnused
    modifies c
    ensures Good(response, caps) && old(Carries(c.input, c.sequence, Packets(response, caps), rest)) ==>
              if Closed(response, caps) then
                && Understood(r, response, caps, maxrows)
                && c.input == rest && c.policy == EphemeralUnused
                && c.sequence == SentAll([], Packets(response, caps), old(c.sequence)).1
              else
                rest == [] ==> r.Failure?
  {
    ghost var good := Good(response, caps) && Carries(c.input, c.sequence, Packets(response, caps), rest);
    ghost var script := Script([], rest, c.sequence);
    if good {
      script := Script(Packets(response, caps), rest, SentAll([], Packets(response, caps), c.sequence).1);
      assert script.payloads[0..] == script.payloads;
    }
    var data := NextPacket(c, good, script, 0);
    r := ReadResponse(c, data, maxrows, caps, good, response, script);
    assert good ==> [] + rest == rest && script.payloads[|script.payloads|..] == [];
  }

  /** What `ReadQueryResult` does with the first packet. */
  method ReadResponse(c: Conn, data: Option<seq<byte>>, maxrows: int, caps: Caps,
                      ghost good: bool, ghost response: Response, ghost script: Script)
    returns (r: Outcome)
    requires data.Some? ==> c.policy == EphemeralUnused
    requires good ==> Good(response, caps) && script.payloads == Packets(response, caps)
    requires good ==> data == Some(script.payloads[0]) && Ahead(c, script, 1)
    modifies c
    ensures good && Closed(response, caps) ==>
              && Understood(r, response, caps, maxrows)
              && Ahead(c, script, |script.payloads|) && c.policy == EphemeralUnused
    ensures good && !Closed(response, caps) && script.rest == [] ==> r.Failure?
  {
    if data.None? {
      return Failure(ServerLost);
    }
    var packet := data.value;
    if good {
      FirstPacket(packet, response, caps);
    }
    if packet == [] {
      return Failure(BadPacket(Malformed));
    }
    if packet[0] == OK_PACKET {
      ghost var ok := if good then response.ok else PacketOk(0, 0, 0, 0, [], []);
      var read := ParseOk(packet, caps.sessionTrack, caps.queryInfo, ok, OK_PACKET);
      if read.None? {
        return Failure(BadPacket(Malformed));
      }
      var (aff, ins) := (read.value.affectedRows, read.value.lastInsertId);
      return Answer(QueryResult([], [], aff, ins, read.value.statusFlags, read.value.info, read.value.sessionState),
                    read.value.MoreResults(), read.value.warnings);
    }
    if IsErr(packet) {
      return Failure(ServerError(packet));
    }
    if packet[0] == NULL_VALUE {
      return Failure(NotImplemented);
    }
    var n := ReadLenEncInt(packet, 0);
    if n.None? || n.value.1 != |packet| {
      return Failure(BadPacket(Malformed));
    }
    if n.value.0 == 0 {
      return Answer(QueryResult([], [], 0, 0, 0, [], []), false, 0);
    }
    r := ReadResultSet(c, n.value.0, maxrows, caps, good, response, script);
  }

  /** The first byte of a response says which of the three kinds it is. */
  lemma FirstPacket(packet: seq<byte>, response: Response, caps: Caps)
    requires Good(response, caps) && packet == Packets(response, caps)[0]
    ensures packet != [] && packet[0] != NULL_VALUE
    ensures packet[0] == OK_PACKET <==> response.Done?
    ensures packet[0] == ERR_PACKET <==> response.Refused?
    ensures response.ResultSet? ==> ReadLenEncInt(packet, 0) == Some((|response.columns|, |packet|))
  {
    match response
    case Refused(_) =>
    case Done(ok) =>
      assert packet[0] == OkHead(ok, OK_PACKET)[0] == OK_PACKET;
    case ResultSet(columns, fieldFlags, _, _) =>
      assert packet == FieldPackets(columns, fieldFlags, caps)[0] == LenEncInt(|columns|);
      LenEncIntFirst(|columns|);
      assert packet[0..|packet|] == packet;
      LenEncIntRoundTrip(packet, 0, |columns|);
  }

  /** A result set sent by one side of a connection and read by the other: it arrives if and only if its end is seen. */
  method Exchange(columns: seq<Column>, rows: seq<seq<Value>>, statusFlags: uint16, tail: Tail, caps: Caps,
                  maxrows: int)
    returns (r: Outcome)
    requires Good(ResultSet(columns, statusFlags, rows, End(tail.Ok(statusFlags))), caps)
    ensures if |EndBytes(tail.Ok(statusFlags), caps)| >= MAX_PACKET_SIZE then r.Failure?
            else if maxrows < 0 || |rows| <= maxrows then Concludes(r, columns, rows, tail.Ok(statusFlags), caps)
            else r == Failure(RowCountExceeded)
  {
    ghost var response := ResultSet(columns, statusFlags, rows, End(tail.Ok(statusFlags)));
    var server := new Conn([]);
    WriteResultSet(server, columns, statusFlags, rows, tail, caps);
    var client := new Conn(server.output);
    assert server.output + [] == server.output;
    r := ReadQueryResult(client, maxrows, caps, response, []);
  }
}
