/** The file-position flavor: a binlog stream turned into events with positions, through a one-slot buffer. */
module FilePos {
  import opened Bytes
  import opened Options
  import opened BinlogEvents
  import Rows = BinlogRows
  import Wire = WireRows

  const QUERY_EVENT: byte := 2
  const XID_EVENT: byte := 16
  const WRITE_ROWS_V0: byte := 20
  const GTID_EVENT: byte := 33
  const ANONYMOUS_GTID_EVENT: byte := 34
  const PREVIOUS_GTIDS_EVENT: byte := 35
  const MARIA_GTID_EVENT: byte := 162
  const MARIA_GTID_LIST_EVENT: byte := 163

  const SEMI_SYNC_INDICATOR: byte := 0xef
  const SEMI_SYNC_ACK_REQUESTED: byte := 0x01

  /** An event of the stream, a made-up query, or a made-up GTID that carries a position. */
  datatype Event =
    | Raw(buf: seq<byte>, ackRequested: bool)
    | Query(sql: string, timestamp: uint32)
    | Gtid(file: seq<byte>, pos: uint32, timestamp: uint32)

  /** Why reading stops; `OutOfRange` stands for reading past the end of a packet. */
  datatype Problem = Lost | ServerError(packet: seq<byte>) | NoSemiSync | BadFormat | OutOfRange

  // ----- event fields -----

  function Timestamp(buf: seq<byte>): (r: uint32)
    requires |buf| >= 4
  {
    PowersOf256();
    GetLe(buf[..4])
  }

  /** `nextPosition`, where the bytes are there; 0 before a format is known. */
  function NextPosition(buf: seq<byte>, format: Option<Format>): (r: Option<uint32>) {
    PowersOf256();
    if format.None? || format.value.headerLength <= 13 then Some(0)
    else if |buf| < 17 then None else Some(GetLe(buf[13..17]))
  }

  function ChecksumOf(b: byte): (r: Checksum) {
    if b == 0 then Off else if b == 1 then Crc32 else if b == 255 then Undef else OtherAlgorithm
  }

  /** `Format` of a format description event: a problem, or the format. */
  function ReadFormat(buf: seq<byte>): (r: (Option<Problem>, Option<Format>))
    ensures r.0.None? <==> r.1.Some?
  {
    if |buf| < 21 then (Some(OutOfRange), None)
    else if GetLe(buf[19..21]) != 4 then (Some(BadFormat), None)
    else if |buf| < 76 then (Some(OutOfRange), None)
    else if buf[75] < 19 then (Some(BadFormat), None)
    else if |buf| < 81 then (Some(OutOfRange), None)
    else (None, Some(Format(buf[76..|buf| - 5], buf[75], ChecksumOf(buf[|buf| - 5]))))
  }

  /** `rotate`, after the checksum is stripped: the name of the next file. */
  function RotateFile(buf: seq<byte>, format: Format): (r: Option<seq<byte>>) {
    var n := |buf| - if format.checksum == Off || format.checksum == Undef then 0 else 4;
    if n < format.headerLength + 8 then None else Some(buf[format.headerLength + 8..n])
  }

  /** The status variables of a query event are well formed. */
  predicate VarsFit(vars: seq<byte>, pos: nat)
    decreases |vars| - pos
  {
    pos >= |vars| ||
    if vars[pos] == 0 || vars[pos] == 3 then VarsFit(vars, pos + 5)
    else if vars[pos] == 1 then VarsFit(vars, pos + 9)
    else if vars[pos] == 2 then pos + 2 <= |vars| && VarsFit(vars, pos + 3 + vars[pos + 1])
    else if vars[pos] == 6 then pos + 2 <= |vars| && VarsFit(vars, pos + 2 + vars[pos + 1])
    else if vars[pos] == 4 then pos + 7 <= |vars| && VarsFit(vars, pos + 7)
    else true
  }

  /** Whether a query event is a comment: `Query` succeeds and the text starts with a hash sign. */
  function IsComment(buf: seq<byte>, format: Option<Format>): (r: Option<bool>) {
    var h := if format.None? then 0 else format.value.headerLength;
    if |buf| < h + 13 then None
    else
      var data := buf[h..];
      var varsLen := GetLe(data[11..13]);
      var sqlPos := 13 + varsLen + data[8] + 1;
      Some(sqlPos < |data| && data[sqlPos] == 35 && VarsFit(data[13..13 + varsLen], 0))
  }

  // ----- one packet -----

  /** What is known of the stream so far. */
  datatype Context = Context(format: Option<Format>, file: seq<byte>)

  /** What one packet turns into: events and a new context, or a problem. */
  datatype Turned = Turned(context: Context, events: seq<Event>) | Stopped(problem: Problem)

  /** `AnalyzeSemiSyncAckRequest`: the event's bytes and whether an acknowledgement is wanted. */
  function Unwrapped(buf: seq<byte>, semiSync: bool): (r: Option<(seq<byte>, bool)>) {
    if !semiSync then Some((buf, false))
    else if |buf| < 2 || buf[0] != SEMI_SYNC_INDICATOR then None
    else Some((buf[2..], buf[1] == SEMI_SYNC_ACK_REQUESTED))
  }

  predicate IsSkipped(typ: byte) {
    typ == GTID_EVENT || typ == ANONYMOUS_GTID_EVENT || typ == PREVIOUS_GTIDS_EVENT || typ == MARIA_GTID_LIST_EVENT
  }

  /** Transaction ends, table maps and row changes. */
  predicate IsChange(typ: byte) {
    typ == XID_EVENT || typ == TABLE_MAP_EVENT || WRITE_ROWS_V0 <= typ <= Rows.DELETE_ROWS_V1
    || Rows.WRITE_ROWS_V2 <= typ <= Rows.DELETE_ROWS_V2
  }

  /** An event behind a GTID that carries the position after it. */
  function Positioned(context: Context, buf: seq<byte>, event: Event): (r: Turned)
    requires |buf| >= 4
  {
    match NextPosition(buf, context.format)
    case None => Stopped(OutOfRange)
    case Some(pos) => Turned(context, [Gtid(context.file, pos, Timestamp(buf)), event])
  }

  /** One event, by its type. */
  function TurnEvent(context: Context, packet: seq<byte>, buf: seq<byte>, ack: bool): (r: Turned)
    requires |buf| > 4
  {
    var typ, event := buf[4], Raw(buf, ack);
    if IsSkipped(typ) then Turned(context, [])
    else if typ == MARIA_GTID_EVENT then
      if |packet| <= 12 then Stopped(OutOfRange)
      else Turned(context, if packet[12] % 2 == 0 then [Query("begin", Timestamp(buf))] else [])
    else if typ == FORMAT_DESCRIPTION_EVENT then
      match ReadFormat(buf) {
        case (Some(problem), _) => Stopped(problem)
        case (None, format) => Turned(context.(format := format), [event])
      }
    else if typ == ROTATE_EVENT then
      if context.format.None? then Turned(context, [event])
      else
        match RotateFile(buf, context.format.value) {
          case None => Stopped(OutOfRange)
          case Some(file) => Turned(context.(file := file), [])
        }
    else if IsChange(typ) then Positioned(context, buf, event)
    else if typ == QUERY_EVENT then
      match IsComment(buf, context.format) {
        case None => Stopped(OutOfRange)
        case Some(true) => Turned(context, [])
        case Some(false) => Positioned(context, buf, event)
      }
    else if NextPosition(buf, context.format) == Some(0) then Turned(context, [event])
    else Positioned(context, buf, Query("repair", Timestamp(buf)))
  }

  function Turn(context: Context, packet: seq<byte>, semiSync: bool): (r: Turned) {
    if packet == [] then Stopped(OutOfRange)
    else if packet[0] == Wire.EOF_PACKET then Stopped(Lost)
    else if packet[0] == Wire.ERR_PACKET then Stopped(ServerError(packet))
    else
      match Unwrapped(packet[1..], semiSync)
      case None => Stopped(NoSemiSync)
      case Some((buf, ack)) => if |buf| <= 4 then Stopped(OutOfRange) else TurnEvent(context, packet, buf, ack)
  }

  // ----- the whole stream -----

  /** The events of all the packets in order, and what ends them. */
  datatype History = History(events: seq<Event>, problem: Problem)

  function Flattened(context: Context, packets: seq<seq<byte>>, semiSync: bool): (r: History)
    decreases |packets|
  {
    if packets == [] then History([], Lost)
    else
      match Turn(context, packets[0], semiSync)
      case Stopped(problem) => History([], problem)
      case Turned(next, events) =>
        var more := Flattened(next, packets[1..], semiSync);
        History(events + more.events, more.problem)
  }

  lemma FlattenedStep(context: Context, packets: seq<seq<byte>>, semiSync: bool)
    ensures packets == [] ==> Flattened(context, packets, semiSync) == History([], Lost)
    ensures packets != [] ==>
              match Turn(context, packets[0], semiSync)
              case Stopped(problem) => Flattened(context, packets, semiSync) == History([], problem)
              case Turned(next, events) =>
                var more := Flattened(next, packets[1..], semiSync);
                Flattened(context, packets, semiSync) == History(events + more.events, more.problem)
  {
  }

  /** The first of two lists, as far as it goes. */
  lemma SplitHead<T>(a: seq<T>, b: seq<T>)
    ensures [] + b == b
    ensures a == [] ==> a + b == b
    ensures a != [] ==> a + b != [] && (a + b)[0] == a[0] && (a + b)[1..] == a[1..] + b
  {
  }

  datatype Result = Got(event: Event) | Failed(problem: Problem)

  /** `filePosFlavor`, over the packets its connection has still to read. */
  class Flavor {
    var format: Option<Format>
    var file: seq<byte>
    var savedEvent: Option<Event>
    var packets: seq<seq<byte>>
    const semiSync: bool

    constructor (file: seq<byte>, packets: seq<seq<byte>>, semiSync: bool)
      ensures this.packets == packets && this.semiSync == semiSync
      ensures format == None && this.file == file && savedEvent == None
    {
      this.format := None;
      this.file := file;
      this.savedEvent := None;
      this.packets := packets;
      this.semiSync := semiSync;
    }

    /** What is still to be returned: the saved event first, then all the rest. */
    ghost function Pending(): (r: History)
      reads this
    {
      var more := Flattened(Context(format, file), packets, semiSync);
      History(Saved() + more.events, more.problem)
    }

    /** `readBinlogEvent` */
    method ReadBinlogEvent() returns (r: Result)
      modifies `format, `file, `savedEvent, `packets
      ensures old(Pending().events) != [] ==>
                r == Got(old(Pending().events)[0]) && Pending() == old(Pending()).(events := old(Pending().events)[1..])
      ensures old(Pending().events) == [] ==> r == Failed(old(Pending().problem))
    {
      hide Turn, Flattened;
      if savedEvent.Some? {
        var ret := savedEvent.value;
        SplitHead(Saved(), Flattened(Context(format, file), packets, semiSync).events);
        savedEvent := None;
        return Got(ret);
      }
      while true
        invariant savedEvent.None? && Pending() == old(Pending())
        decreases |packets|
      {
        FlattenedStep(Context(format, file), packets, semiSync);
        if packets == [] {
          return Failed(Lost);
        }
        ghost var turned := Turn(Context(format, file), packets[0], semiSync);
        var result := packets[0];
        packets := packets[1..];
        var handled := HandlePacket(result);
        if turned.Turned? {
          SplitHead(turned.events, Flattened(turned.context, packets, semiSync).events);
        }
        if handled.Some? {
          return handled.value;
        }
      }
    }

    /** What `readBinlogEvent` does with a packet; nothing is returned where the loop goes on. */
    method HandlePacket(result: seq<byte>) returns (r: Option<Result>)
      requires savedEvent.None?
      modifies `format, `file, `savedEvent
      ensures match Turn(Context(old(format), old(file)), result, semiSync)
              case Stopped(problem) => r == Some(Failed(problem))
              case Turned(context, events) =>
                && Context(format, file) == context
                && (events == [] ==> r == None && savedEvent == None)
                && (events != [] ==> r == Some(Got(events[0])) && Saved() == events[1..])
    {
      hide TurnEvent;
      if result == [] {
        return Some(Failed(OutOfRange));
      }
      if result[0] == Wire.EOF_PACKET {
        return Some(Failed(Lost));
      }
      if result[0] == Wire.ERR_PACKET {
        return Some(Failed(ServerError(result)));
      }
      var unwrapped := Unwrapped(result[1..], semiSync);
      if unwrapped.None? {
        return Some(Failed(NoSemiSync));
      }
      var (buf, ack) := unwrapped.value;
      if |buf| <= 4 {
        return Some(Failed(OutOfRange));
      }
      r := HandleEvent(result, buf, ack);
    }

    /** `savedEvent` as a list. */
    ghost function Saved(): (r: seq<Event>)
      reads this
    {
      if savedEvent.Some? then [savedEvent.value] else []
    }

    /** The type switch of `readBinlogEvent`; nothing is returned where the loop goes on. */
    method HandleEvent(packet: seq<byte>, buf: seq<byte>, ack: bool) returns (r: Option<Result>)
      requires |buf| > 4 && savedEvent.None?
      modifies `format, `file, `savedEvent
      ensures match TurnEvent(Context(old(format), old(file)), packet, buf, ack)
              case Stopped(problem) => r == Some(Failed(problem))
              case Turned(context, events) =>
                && Context(format, file) == context
                && (events == [] ==> r == None && savedEvent == None)
                && (events != [] ==> r == Some(Got(events[0])) && Saved() == events[1..])
    {
      var typ, event := buf[4], Raw(buf, ack);
      if IsSkipped(typ) {
        return None;
      }
      if typ == MARIA_GTID_EVENT {
        if |packet| <= 12 {
          return Some(Failed(OutOfRange));
        }
        if packet[12] % 2 == 0 {
          return Some(Got(Query("begin", Timestamp(buf))));
        }
        return None;
      }
      if typ == FORMAT_DESCRIPTION_EVENT {
        var read := ReadFormat(buf);
        if read.0.Some? {
          return Some(Failed(read.0.value));
        }
        format := read.1;
        return Some(Got(event));
      }
      if typ == ROTATE_EVENT && format.Some? {
        var name := RotateFile(buf, format.value);
        if name.None? {
          return Some(Failed(OutOfRange));
        }
        file := name.value;
        return None;
      }
      if typ == QUERY_EVENT {
        var comment := IsComment(buf, format);
        if comment.None? {
          return Some(Failed(OutOfRange));
        }
        if comment.value {
          return None;
        }
      }
      if typ == ROTATE_EVENT {
        return Some(Got(event));
      }
      var next := NextPosition(buf, format);
      if next.None? {
        return Some(Failed(OutOfRange));
      }
      if IsChange(typ) || typ == QUERY_EVENT {
        savedEvent := Some(event);
      } else if next.value != 0 {
        savedEvent := Some(Query("repair", Timestamp(buf)));
      } else {
        return Some(Got(event));
      }
      return Some(Got(Gtid(file, next.value, Timestamp(buf))));
    }
  }

  /** Reading to the end returns exactly the events of all the packets, in order, and then what ended them. */
  method ReadAll(file: seq<byte>, packets: seq<seq<byte>>, semiSync: bool)
    returns (events: seq<Event>, problem: Problem)
    ensures History(events, problem) == Flattened(Context(None, file), packets, semiSync)
  {
    var flavor := new Flavor(file, packets, semiSync);
    events := [];
    ghost var all := Flattened(Context(None, file), packets, semiSync);
    assert flavor.Pending() == all by { assert [] + all.events == all.events; }
    while true
      invariant flavor.Pending().problem == all.problem && events + flavor.Pending().events == all.events
      decreases |flavor.Pending().events|
    {
      ghost var left := flavor.Pending().events;
      var next := flavor.ReadBinlogEvent();
      if next.Failed? {
        assert events + [] == events;
        return events, next.problem;
      }
      HeadAndTail(left);
      Assoc(events, [left[0]], left[1..]);
      events := events + [next.event];
    }
  }

  // ----- positions -----

  /**
   `event` is the one `gtid` was made for: the same time, and the position after it if it is an event of the stream.
   */
  ghost predicate Announces(gtid: Event, event: Event)
    requires gtid.Gtid?
  {
    match event
    case Raw(buf, _) =>
      && |buf| >= 4 && gtid.timestamp == Timestamp(buf)
      && (gtid.pos != 0 ==> |buf| >= 17 && gtid.pos == GetLe(buf[13..17]))
    case Query(sql, timestamp) => sql == "repair" && timestamp == gtid.timestamp && gtid.pos != 0
    case Gtid(_, _, _) => false
  }

  /** A change or a query of the stream: an event replication can resume after. */
  ghost predicate IsResumable(event: Event) {
    event.Raw? && |event.buf| > 4 && (IsChange(event.buf[4]) || event.buf[4] == QUERY_EVENT)
  }

  /** Every GTID is followed at once by the event it announces, and every change or query is announced so. */
  ghost predicate Paired(events: seq<Event>) {
    && (forall i :: 0 <= i < |events| && events[i].Gtid? ==> i + 1 < |events| && Announces(events[i], events[i + 1]))
    && (forall i :: 0 <= i < |events| && IsResumable(events[i]) ==> i > 0 && events[i - 1].Gtid?)
  }

  lemma PositionedPaired(context: Context, buf: seq<byte>, event: Event)
    requires |buf| > 4
    requires || (event.Raw? && event.buf == buf)
             || (event == Query("repair", Timestamp(buf)) && NextPosition(buf, context.format) != Some(0))
    ensures var turned := Positioned(context, buf, event);
            turned.Turned? ==> Paired(turned.events)
  {
    hide Timestamp;
  }

  lemma SinglePaired(event: Event)
    requires !event.Gtid? && !IsResumable(event)
    ensures Paired([event]) && Paired([])
  {
  }

  lemma TurnPaired(context: Context, packet: seq<byte>, semiSync: bool)
    ensures var turned := Turn(context, packet, semiSync);
            turned.Turned? ==> Paired(turned.events)
  {
    if packet != [] && packet[0] != Wire.EOF_PACKET && packet[0] != Wire.ERR_PACKET {
      match Unwrapped(packet[1..], semiSync)
      case None =>
      case Some((buf, ack)) =>
        if |buf| > 4 {
          EventPaired(context, packet, buf, ack);
        }
    }
    hide TurnEvent, Paired;
  }

  lemma EventPaired(context: Context, packet: seq<byte>, buf: seq<byte>, ack: bool)
    requires |buf| > 4
    ensures var turned := TurnEvent(context, packet, buf, ack);
            turned.Turned? ==> Paired(turned.events)
  {
    hide Paired, Positioned, ReadFormat, RotateFile, IsComment, Timestamp;
    SinglePaired(Query("begin", Timestamp(buf)));
    PositionedPaired(context, buf, Raw(buf, ack));
    if NextPosition(buf, context.format) != Some(0) {
      PositionedPaired(context, buf, Query("repair", Timestamp(buf)));
    }
    if !IsResumable(Raw(buf, ack)) {
      SinglePaired(Raw(buf, ack));
    }
  }

  lemma PairedConcat(a: seq<Event>, b: seq<Event>)
    requires Paired(a) && Paired(b)
    ensures Paired(a + b)
  {
    var c := a + b;
    forall i | 0 <= i < |c| && c[i].Gtid?
      ensures i + 1 < |c| && Announces(c[i], c[i + 1])
    {
      if i < |a| {
        assert c[i] == a[i] && c[i + 1] == a[i + 1];
      } else {
        assert c[i] == b[i - |a|] && c[i + 1] == b[i - |a| + 1];
      }
    }
    forall i | 0 <= i < |c| && IsResumable(c[i])
      ensures i > 0 && c[i - 1].Gtid?
    {
      if i < |a| {
        assert c[i] == a[i] && c[i - 1] == a[i - 1];
      } else {
        assert c[i] == b[i - |a|] && c[i - 1] == b[i - |a| - 1];
      }
    }
  }

  /** So it is over the whole stream. */
  lemma {:induction false} StreamPaired(context: Context, packets: seq<seq<byte>>, semiSync: bool)
    ensures Paired(Flattened(context, packets, semiSync).events)
    decreases |packets|
  {
    if packets == [] {
    } else {
      TurnPaired(context, packets[0], semiSync);
      match Turn(context, packets[0], semiSync)
      case Stopped(_) =>
      case Turned(next, events) =>
        StreamPaired(next, packets[1..], semiSync);
        PairedConcat(events, Flattened(next, packets[1..], semiSync).events);
    }
  }

  // ----- files -----

  /** The file that a packet with a rotate event names, once a format is known. */
  function RotatedTo(context: Context, packet: seq<byte>, semiSync: bool): (r: Option<seq<byte>>) {
    if packet == [] || packet[0] == Wire.EOF_PACKET || packet[0] == Wire.ERR_PACKET then None
    else
      match Unwrapped(packet[1..], semiSync)
      case None => None
      case Some((buf, _)) =>
        if |buf| <= 4 || buf[4] != ROTATE_EVENT || context.format.None? then None
        else RotateFile(buf, context.format.value)
  }

  ghost predicate AllIn(events: seq<Event>, file: seq<byte>) {
    forall i :: 0 <= i < |events| && events[i].Gtid? ==> events[i].file == file
  }

  /** A GTID carries the file in force, and only a rotate event changes that. */
  lemma TurnFile(context: Context, packet: seq<byte>, semiSync: bool)
    requires Turn(context, packet, semiSync).Turned?
    ensures var turned := Turn(context, packet, semiSync);
            && AllIn(turned.events, context.file)
            && turned.context.file
               == match RotatedTo(context, packet, semiSync) case Some(file) => file case None => context.file
  {
    hide ReadFormat, RotateFile, IsComment, Timestamp, NextPosition;
    var (buf, ack) := Unwrapped(packet[1..], semiSync).value;
    assert Turn(context, packet, semiSync) == TurnEvent(context, packet, buf, ack);
  }

  /** The context after `k` packets, unless reading stopped before. */
  ghost function ContextAfter(context: Context, packets: seq<seq<byte>>, k: nat, semiSync: bool): (r: Option<Context>)
    requires k <= |packets|
    decreases k
  {
    if k == 0 then Some(context)
    else
      match Turn(context, packets[0], semiSync)
      case Stopped(_) => None
      case Turned(next, _) => ContextAfter(next, packets[1..], k - 1, semiSync)
  }

  lemma {:induction false} ContextNext(context: Context, packets: seq<seq<byte>>, k: nat, semiSync: bool)
    requires k < |packets|
    ensures ContextAfter(context, packets, k + 1, semiSync)
         == match ContextAfter(context, packets, k, semiSync)
            case None => None
            case Some(now) =>
              match Turn(now, packets[k], semiSync) case Stopped(_) => None case Turned(next, _) => Some(next)
    decreases k
  {
    hide Turn;
    if k == 0 {
    } else {
      match Turn(context, packets[0], semiSync)
      case Stopped(_) =>
      case Turned(next, _) => ContextNext(next, packets[1..], k - 1, semiSync);
    }
  }

  /** What packet `k` rotates to, if it is reached and does. */
  ghost function RotationAt(context: Context, packets: seq<seq<byte>>, k: nat, semiSync: bool): (r: Option<seq<byte>>)
    requires k < |packets|
  {
    match ContextAfter(context, packets, k, semiSync)
    case None => None
    case Some(now) => RotatedTo(now, packets[k], semiSync)
  }

  /** `file` is what the last rotate event before packet `k` names, or the first file if there is none. */
  ghost predicate LastRotation(context: Context, packets: seq<seq<byte>>, k: nat, semiSync: bool, file: seq<byte>)
    requires k <= |packets|
  {
    || (file == context.file && forall l: nat :: l < k ==> RotationAt(context, packets, l, semiSync) == None)
    || exists j: nat ::
         && j < k && RotationAt(context, packets, j, semiSync) == Some(file)
         && forall l: nat :: j < l < k ==> RotationAt(context, packets, l, semiSync) == None
  }

  lemma {:induction false} FileInForce(context: Context, packets: seq<seq<byte>>, k: nat, semiSync: bool)
    requires k <= |packets| && ContextAfter(context, packets, k, semiSync).Some?
    ensures LastRotation(context, packets, k, semiSync, ContextAfter(context, packets, k, semiSync).value.file)
    decreases k
  {
    hide Turn, RotatedTo;
    if k == 0 {
    } else {
      ContextNext(context, packets, k - 1, semiSync);
      hide ContextAfter;
      FileInForce(context, packets, k - 1, semiSync);
      var now := ContextAfter(context, packets, k - 1, semiSync).value;
      TurnFile(now, packets[k - 1], semiSync);
      assert RotationAt(context, packets, k - 1, semiSync) == RotatedTo(now, packets[k - 1], semiSync);
    }
  }

  /** Every GTID of the stream is made from some packet and carries the file of the last rotate event before it. */
  lemma {:induction false} StreamFiled(context: Context, packets: seq<seq<byte>>, semiSync: bool, i: nat)
    returns (k: nat)
    requires i < |Flattened(context, packets, semiSync).events| && Flattened(context, packets, semiSync).events[i].Gtid?
    ensures k < |packets| && ContextAfter(context, packets, k, semiSync).Some?
    ensures var gtid := Flattened(context, packets, semiSync).events[i];
            var turned := Turn(ContextAfter(context, packets, k, semiSync).value, packets[k], semiSync);
            turned.Turned? && gtid in turned.events && LastRotation(context, packets, k, semiSync, gtid.file)
    decreases |packets|
  {
    hide Turn, LastRotation;
    k := PacketOf(context, packets, semiSync, i);
    var now := ContextAfter(context, packets, k, semiSync).value;
    TurnFile(now, packets[k], semiSync);
    FileInForce(context, packets, k, semiSync);
  }

  /** The packet an event of the stream is made from. */
  lemma {:induction false} PacketOf(context: Context, packets: seq<seq<byte>>, semiSync: bool, i: nat) returns (k: nat)
    requires i < |Flattened(context, packets, semiSync).events|
    ensures k < |packets| && ContextAfter(context, packets, k, semiSync).Some?
    ensures var turned := Turn(ContextAfter(context, packets, k, semiSync).value, packets[k], semiSync);
            turned.Turned? && Flattened(context, packets, semiSync).events[i] in turned.events
    decreases |packets|
  {
    hide Turn;
    var turned := Turn(context, packets[0], semiSync);
    if i < |turned.events| {
      k := 0;
    } else {
      var later := PacketOf(turned.context, packets[1..], semiSync, i - |turned.events|);
      k := later + 1;
    }
  }
}
