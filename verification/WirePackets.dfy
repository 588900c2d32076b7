/** Packet framing: splitting a payload into packets in place, and putting it together again. */
module WirePackets {
  import opened Bytes
  import opened Options

  const MAX_PACKET_SIZE: nat := 0xFF_FFFF
  const PACKET_HEADER_SIZE: nat := 4

  function Next(sequence: byte): (r: byte) {
    (sequence + 1) % 256
  }

  /** A packet header: three bytes of length and the sequence number. */
  function Header(length: nat, sequence: byte): (r: seq<byte>)
    ensures |r| == PACKET_HEADER_SIZE
  {
    PutLe(length, 3) + [sequence]
  }

  lemma ThreeBytes(length: nat)
    ensures PutLe(length, 3) == [length % 256, length / 256 % 256, length / 256 / 256 % 256]
  {
    assert PutLe(length / 256, 2) == [length / 256 % 256] + PutLe(length / 256 / 256, 1);
    assert PutLe(length / 256 / 256, 1) == [length / 256 / 256 % 256];
  }

  /** What a payload looks like on the wire: full packets, then one that is not full. */
  function Frames(payload: seq<byte>, sequence: byte): (r: seq<byte>)
    decreases |payload|
  {
    if |payload| < MAX_PACKET_SIZE then Header(|payload|, sequence) + payload
    else
      Header(MAX_PACKET_SIZE, sequence) + payload[..MAX_PACKET_SIZE]
      + Frames(payload[MAX_PACKET_SIZE..], Next(sequence))
  }

  /** The sequence number after a payload. */
  function SequenceAfter(payload: seq<byte>, sequence: byte): (r: byte)
    decreases |payload|
  {
    if |payload| < MAX_PACKET_SIZE then Next(sequence)
    else SequenceAfter(payload[MAX_PACKET_SIZE..], Next(sequence))
  }

  /** A payload takes one packet more than it has full ones, counted modulo 256. */
  lemma {:induction false} PacketCount(payload: seq<byte>, sequence: byte)
    ensures SequenceAfter(payload, sequence) == (sequence + |payload| / MAX_PACKET_SIZE + 1) % 256
    decreases |payload|
  {
    if |payload| < MAX_PACKET_SIZE {
    } else {
      PacketCount(payload[MAX_PACKET_SIZE..], Next(sequence));
      OneFullPacket(|payload|);
      NextCounts(sequence, (|payload| - MAX_PACKET_SIZE) / MAX_PACKET_SIZE + 1);
    }
  }

  lemma OneFullPacket(n: nat)
    requires n >= MAX_PACKET_SIZE
    ensures n / MAX_PACKET_SIZE == (n - MAX_PACKET_SIZE) / MAX_PACKET_SIZE + 1
  {
  }

  lemma NextCounts(sequence: byte, n: nat)
    ensures (Next(sequence) + n) % 256 == (sequence + n + 1) % 256
  {
  }

  /** The output and the sequence number once `payload` is sent as well. */
  ghost function Sent(output: seq<byte>, payload: seq<byte>, sequence: byte): (r: (seq<byte>, byte)) {
    (output + Frames(payload, sequence), SequenceAfter(payload, sequence))
  }

  /** Sending one packet brings a payload nearer to being sent. */
  lemma ChunkStep(output: seq<byte>, payload: seq<byte>, sequence: byte)
    ensures |payload| < MAX_PACKET_SIZE ==>
              Sent(output, payload, sequence) == (output + Header(|payload|, sequence) + payload, Next(sequence))
    ensures |payload| >= MAX_PACKET_SIZE ==>
              Sent(output, payload, sequence)
              == Sent(output + Header(MAX_PACKET_SIZE, sequence) + payload[..MAX_PACKET_SIZE],
                      payload[MAX_PACKET_SIZE..], Next(sequence))
  {
    if |payload| < MAX_PACKET_SIZE {
      Assoc(output, Header(|payload|, sequence), payload);
    } else {
      var header, head := Header(MAX_PACKET_SIZE, sequence), payload[..MAX_PACKET_SIZE];
      Assoc(output, header, head);
      Assoc(output, header + head, Frames(payload[MAX_PACKET_SIZE..], Next(sequence)));
    }
  }

  /** A payload, the input left after it, and the next sequence number. */
  datatype Message = Message(payload: seq<byte>, rest: seq<byte>, sequence: byte)

  /** `readHeaderFrom` and `readOnePacket` on the bytes that are to come. */
  function ReadOne(input: seq<byte>, sequence: byte): (r: Option<Message>)
    ensures r.Some? ==> |r.value.rest| < |input| && |r.value.payload| <= MAX_PACKET_SIZE
  {
    if |input| < PACKET_HEADER_SIZE || input[3] != sequence then None
    else
      PowersOf256();
      var length := GetLe(input[..3]);
      if |input| < PACKET_HEADER_SIZE + length then None
      else Some(Message(input[4..4 + length], input[4 + length..], Next(sequence)))
  }

  /** `readPacket` on the bytes that are to come: packets up to the first that is not full. */
  function ReadMessage(input: seq<byte>, sequence: byte): (r: Option<Message>)
    ensures r.Some? ==> |r.value.rest| < |input|
    decreases |input|
  {
    match ReadOne(input, sequence)
    case None => None
    case Some(Message(payload, rest, next)) =>
      if |payload| < MAX_PACKET_SIZE then Some(Message(payload, rest, next))
      else
        match ReadMessage(rest, next)
        case None => None
        case Some(m) => Some(m.(payload := payload + m.payload))
  }

  lemma ReadOneExact(input: seq<byte>, sequence: byte, payload: seq<byte>, rest: seq<byte>)
    requires |payload| <= MAX_PACKET_SIZE
    ensures ReadOne(input, sequence) == Some(Message(payload, rest, Next(sequence)))
       <==> input == Header(|payload|, sequence) + payload + rest
  {
    PowersOf256();
    LeRoundTrip(|payload|, 3);
    if input == Header(|payload|, sequence) + payload + rest {
      assert input[..3] == PutLe(|payload|, 3) && input[3] == sequence;
      assert input[4..4 + |payload|] == payload && input[4 + |payload|..] == rest;
    }
    if ReadOne(input, sequence) == Some(Message(payload, rest, Next(sequence))) {
      var length := GetLe(input[..3]);
      assert length == |payload|;
      LePrinted(input[..3]);
      assert input == input[..3] + [input[3]] + input[4..4 + length] + input[4 + length..];
    }
  }

  lemma {:induction false} LePrinted(s: seq<byte>)
    ensures PutLe(GetLe(s), |s|) == s
  {
    if s == [] {
    } else {
      LePrinted(s[1..]);
      LowByte(s[0], GetLe(s[1..]));
      HeadAndTail(s);
    }
  }

  lemma LowByte(b: byte, more: nat)
    ensures (b + 256 * more) % 256 == b && (b + 256 * more) / 256 == more
  {
  }

  /** The reader accepts exactly what the writer produces, and gets the payload back. */
  lemma {:induction false} FramesReadBack(input: seq<byte>, sequence: byte, payload: seq<byte>, rest: seq<byte>)
    ensures input == Frames(payload, sequence) + rest
        ==> ReadMessage(input, sequence) == Some(Message(payload, rest, SequenceAfter(payload, sequence)))
    decreases |payload|
  {
    if input == Frames(payload, sequence) + rest {
      if |payload| < MAX_PACKET_SIZE {
        ReadOneExact(input, sequence, payload, rest);
      } else {
        var head, tail := payload[..MAX_PACKET_SIZE], payload[MAX_PACKET_SIZE..];
        var more := Frames(tail, Next(sequence)) + rest;
        assert input == Header(|head|, sequence) + head + more;
        ReadOneExact(input, sequence, head, more);
        FramesReadBack(more, Next(sequence), tail, rest);
        assert payload == head + tail;
      }
    }
  }

  /** Whatever the reader accepts is the framing of the payload it returns. */
  lemma {:induction false} ReadsOnlyFrames(input: seq<byte>, sequence: byte)
    ensures match ReadMessage(input, sequence)
            case None => true
            case Some(Message(payload, rest, next)) =>
              input == Frames(payload, sequence) + rest && next == SequenceAfter(payload, sequence)
    decreases |input|
  {
    match ReadOne(input, sequence)
    case None =>
    case Some(Message(head, more, next)) =>
      ReadOneExact(input, sequence, head, more);
      if |head| == MAX_PACKET_SIZE {
        ReadsOnlyFrames(more, next);
        match ReadMessage(more, next) {
          case None =>
          case Some(Message(tail, rest, _)) =>
            assert (head + tail)[..MAX_PACKET_SIZE] == head && (head + tail)[MAX_PACKET_SIZE..] == tail;
            assert input == Header(MAX_PACKET_SIZE, sequence) + head + (Frames(tail, next) + rest);
        }
      }
  }

  // ----- runs of payloads -----

  /** The output and the sequence number once each of `payloads` is sent in turn. */
  ghost function SentAll(output: seq<byte>, payloads: seq<seq<byte>>, sequence: byte): (r: (seq<byte>, byte))
    decreases |payloads|
  {
    if payloads == [] then (output, sequence)
    else
      var (next, after) := Sent(output, payloads[0], sequence);
      SentAll(next, payloads[1..], after)
  }

  lemma {:induction false} SentConcat(output: seq<byte>, ps: seq<seq<byte>>, qs: seq<seq<byte>>, sequence: byte)
    ensures var (next, after) := SentAll(output, ps, sequence);
            SentAll(output, ps + qs, sequence) == SentAll(next, qs, after)
    decreases |ps|
  {
    if ps == [] {
      assert ps + qs == qs;
    } else {
      var (next, after) := Sent(output, ps[0], sequence);
      SentConcat(next, ps[1..], qs, after);
      assert (ps + qs)[1..] == ps[1..] + qs;
    }
  }

  lemma {:induction false} SentExtends(output: seq<byte>, ps: seq<seq<byte>>, sequence: byte)
    ensures SentAll(output, ps, sequence) == (output + SentAll([], ps, sequence).0, SentAll([], ps, sequence).1)
    decreases |ps|
  {
    if ps == [] {
      assert output + [] == output;
    } else {
      var (next, after) := Sent(output, ps[0], sequence);
      var (next0, _) := Sent([], ps[0], sequence);
      SentExtends(next, ps[1..], after);
      SentExtends(next0, ps[1..], after);
      var tail := SentAll([], ps[1..], after).0;
      assert next0 == Frames(ps[0], sequence);
      Assoc(output, next0, tail);
    }
  }

  /** `input` is what sending `payloads` puts on the wire, and then `rest`. */
  ghost predicate Carries(input: seq<byte>, sequence: byte, payloads: seq<seq<byte>>, rest: seq<byte>) {
    input == SentAll([], payloads, sequence).0 + rest
  }

  /** The next message of a run is the first payload sent, and the rest of the run follows it. */
  lemma CarriesNext(input: seq<byte>, sequence: byte, payloads: seq<seq<byte>>, rest: seq<byte>)
    requires payloads != [] && Carries(input, sequence, payloads, rest)
    ensures var next := SequenceAfter(payloads[0], sequence);
            var m := ReadMessage(input, sequence);
            && m.Some? && m.value.payload == payloads[0] && m.value.sequence == next
            && Carries(m.value.rest, next, payloads[1..], rest)
            && SentAll([], payloads, sequence).1 == SentAll([], payloads[1..], next).1
  {
    var (first, next) := Sent([], payloads[0], sequence);
    assert first == Frames(payloads[0], sequence);
    SentExtends(first, payloads[1..], next);
    var more := SentAll([], payloads[1..], next).0;
    Assoc(first, more, rest);
    FramesReadBack(input, sequence, payloads[0], more + rest);
  }

  // ----- connections -----

  datatype EphemeralPolicy = EphemeralUnused | EphemeralWrite | EphemeralRead

  /** `buf` with the four bytes at `index` replaced. */
  ghost function Patched(buf: seq<byte>, index: nat, four: seq<byte>): (r: seq<byte>)
    requires |four| == 4 && index + 4 <= |buf|
    ensures |r| == |buf|
  {
    buf[..index] + four + buf[index + 4..]
  }

  lemma PatchedSlice(buf: seq<byte>, index: nat, four: seq<byte>, n: nat)
    requires |four| == 4 && index + 4 + n <= |buf|
    ensures Patched(buf, index, four)[index..index + 4 + n] == four + buf[index + 4..index + 4 + n]
  {
  }

  /** Putting the old bytes back restores the buffer. */
  lemma PatchedBack(buf: seq<byte>, index: nat, four: seq<byte>)
    requires |four| == 4 && index + 4 <= |buf|
    ensures Patched(Patched(buf, index, four), index, buf[index..index + 4]) == buf
  {
  }

  method Patch(data: array<byte>, index: nat, b0: byte, b1: byte, b2: byte, b3: byte)
    requires index + 4 <= data.Length
    modifies data
    ensures data[..] == Patched(old(data[..]), index, [b0, b1, b2, b3])
  {
    data[index], data[index + 1], data[index + 2], data[index + 3] := b0, b1, b2, b3;
  }

  /** One side of a connection: the bytes it has written, and the bytes it has still to read. */
  class Conn {
    var sequence: byte
    var output: seq<byte>
    var input: seq<byte>
    var policy: EphemeralPolicy

    constructor (input: seq<byte>)
      ensures this.input == input && output == [] && sequence == 0 && policy == EphemeralUnused
    {
      this.input := input;
      output := [];
      sequence := 0;
      policy := EphemeralUnused;
    }

    /**
     `writePacket`: the first four bytes of `data` are room for a header. Each packet's header is written over the
     four bytes before its part of the payload, and those bytes are put back after the write.
     */
    method WritePacket(data: array<byte>)
      requires data.Length >= PACKET_HEADER_SIZE
      modifies data, `sequence, `output
      ensures data[..] == old(data[..])
      ensures output == old(output) + Frames(old(data[4..]), old(sequence))
      ensures sequence == SequenceAfter(old(data[4..]), old(sequence))
    {
      ghost var was := data[..];
      ghost var goal := Sent(output, was[4..], sequence);
      var index := 0;
      var dataLength := data.Length - PACKET_HEADER_SIZE;
      while true
        invariant 0 <= index && dataLength == data.Length - PACKET_HEADER_SIZE - index && dataLength >= 0
        invariant data[..] == was
        invariant Sent(output, was[index + 4..], sequence) == goal
        decreases dataLength
      {
        var toBeSent := if dataLength > MAX_PACKET_SIZE then MAX_PACKET_SIZE else dataLength;
        ChunkStep(output, was[index + 4..], sequence);
        SendChunk(data, index, toBeSent);
        assert was[index + 4..index + 4 + toBeSent] == was[index + 4..][..toBeSent];
        assert was[index + 4 + toBeSent..] == was[index + 4..][toBeSent..];
        dataLength := dataLength - toBeSent;
        if dataLength == 0 {
          if toBeSent == MAX_PACKET_SIZE {
            assert was[index + 4 + toBeSent..] == [];
            output := output + Header(0, sequence);
            sequence := Next(sequence);
          }
          return;
        }
        index := index + toBeSent;
      }
    }

    /** One round of `WritePacket`: overwrite, send, restore. */
    method SendChunk(data: array<byte>, index: nat, toBeSent: nat)
      requires index + PACKET_HEADER_SIZE + toBeSent <= data.Length && toBeSent <= MAX_PACKET_SIZE
      modifies data, `sequence, `output
      ensures data[..] == old(data[..])
      ensures output == old(output) + Header(toBeSent, old(sequence)) + old(data[index + 4..index + 4 + toBeSent])
      ensures sequence == Next(old(sequence))
    {
      ghost var was, header := data[..], Header(toBeSent, sequence);
      var h0, h1, h2, h3 := data[index], data[index + 1], data[index + 2], data[index + 3];
      ThreeBytes(toBeSent);
      assert header == [toBeSent % 256, toBeSent / 256 % 256, toBeSent / 256 / 256 % 256, sequence];
      assert was[index..index + 4] == [h0, h1, h2, h3];
      PatchedSlice(was, index, header, toBeSent);
      PatchedBack(was, index, header);
      hide Header, Patched;
      Patch(data, index, toBeSent % 256, toBeSent / 256 % 256, toBeSent / 256 / 256 % 256, sequence);
      Assoc(output, header, was[index + 4..index + 4 + toBeSent]);
      output := output + data[index..index + 4 + toBeSent];
      Patch(data, index, h0, h1, h2, h3);
      sequence := Next(sequence);
    }

    /** `startEphemeralPacketWithHeader`: a buffer with room for a header, holding anything. */
    method StartEphemeralPacket(length: nat) returns (data: array<byte>)
      requires policy == EphemeralUnused
      modifies `policy
      ensures policy == EphemeralWrite && fresh(data) && data.Length == PACKET_HEADER_SIZE + length
    {
      policy := EphemeralWrite;
      data := new byte[PACKET_HEADER_SIZE + length];
    }

    /** `writeEphemeralPacket`, and its `recycleWritePacket` */
    method WriteEphemeralPacket(data: array<byte>)
      requires policy == EphemeralWrite && data.Length >= PACKET_HEADER_SIZE
      modifies data, `sequence, `output, `policy
      ensures policy == EphemeralUnused
      ensures (output, sequence) == SentAll(old(output), [old(data[4..])], old(sequence))
    {
      WritePacket(data);
      policy := EphemeralUnused;
    }

    /** `readOnePacket`; `None` stands for the read errors and for a wrong sequence number. */
    method ReadOnePacket() returns (r: Option<seq<byte>>)
      modifies `sequence, `input
      ensures match ReadOne(old(input), old(sequence))
              case None => r == None
              case Some(m) => r == Some(m.payload) && input == m.rest && sequence == m.sequence
    {
      if |input| < PACKET_HEADER_SIZE {
        return None;
      }
      var header := input[..PACKET_HEADER_SIZE];
      input := input[PACKET_HEADER_SIZE..];
      if header[3] != sequence {
        return None;
      }
      sequence := Next(sequence);
      assert header[..3] == old(input)[..3];
      var length := GetLe(header[..3]);
      if length == 0 {
        return Some([]);
      }
      if |input| < length {
        return None;
      }
      var data := input[..length];
      input := input[length..];
      assert data == old(input)[4..4 + length] && input == old(input)[4 + length..];
      return Some(data);
    }

    /** The rest of a payload whose packets so far were all full. */
    method ReadMore(data: seq<byte>) returns (r: Option<seq<byte>>)
      modifies `sequence, `input
      ensures match ReadMessage(old(input), old(sequence))
              case None => r == None
              case Some(m) => r == Some(data + m.payload) && input == m.rest && sequence == m.sequence
    {
      var all := data;
      while true
        invariant match ReadMessage(input, sequence)
                  case None => ReadMessage(old(input), old(sequence)) == None
                  case Some(m) => ReadMessage(old(input), old(sequence)).Some?
                                  && var m0 := ReadMessage(old(input), old(sequence)).value;
                                  data + m0.payload == all + m.payload && m0.rest == m.rest && m0.sequence == m.sequence
        decreases |input|
      {
        var next := ReadOnePacket();
        if next.None? {
          return None;
        }
        if |next.value| == 0 {
          assert next.value == [];
          assert all + [] == all;
          break;
        }
        ghost var later := ReadMessage(input, sequence);
        Assoc(all, next.value, if later.Some? then later.value.payload else []);
        all := all + next.value;
        if |next.value| < MAX_PACKET_SIZE {
          break;
        }
      }
      return Some(all);
    }

    /** `readPacket` */
    method ReadPacket() returns (r: Option<seq<byte>>)
      modifies `sequence, `input
      ensures match ReadMessage(old(input), old(sequence))
              case None => r == None
              case Some(m) => r == Some(m.payload) && input == m.rest && sequence == m.sequence
    {
      var data := ReadOnePacket();
      if data.None? {
        return None;
      }
      if |data.value| < MAX_PACKET_SIZE {
        return data;
      }
      r := ReadMore(data.value);
    }

    /** `readEphemeralPacket` */
    method ReadEphemeralPacket() returns (r: Option<seq<byte>>)
      requires policy == EphemeralUnused
      modifies `sequence, `input, `policy
      ensures match ReadMessage(old(input), old(sequence))
              case None => r == None
              case Some(m) =>
                r == Some(m.payload) && input == m.rest && sequence == m.sequence && policy == EphemeralRead
    {
      var data := ReadOnePacket();
      if data.None? {
        return None;
      }
      policy := EphemeralRead;
      if |data.value| < MAX_PACKET_SIZE {
        return data;
      }
      r := ReadMore(data.value);
    }

    /** `recycleReadPacket` */
    method RecycleReadPacket()
      requires policy == EphemeralRead
      modifies `policy
      ensures policy == EphemeralUnused
    {
      policy := EphemeralUnused;
    }
  }

  /**
   A payload written by one side and read by the other, by either of the reading functions, from any sequence number.
   */
  method ThereAndBack(data: array<byte>, sequence: byte, ephemeral: bool)
    returns (r: Option<seq<byte>>, sent: byte, read: byte)
    requires data.Length >= PACKET_HEADER_SIZE
    modifies data
    ensures r == Some(old(data[PACKET_HEADER_SIZE..])) && sent == read && data[..] == old(data[..])
  {
    ghost var payload := data[PACKET_HEADER_SIZE..];
    var writer := new Conn([]);
    writer.sequence := sequence;
    writer.WritePacket(data);
    var reader := new Conn(writer.output);
    reader.sequence := sequence;
    hide Frames, SequenceAfter, ReadMessage;
    assert writer.output == Frames(payload, sequence) + [];
    FramesReadBack(writer.output, sequence, payload, []);
    if ephemeral {
      r := reader.ReadEphemeralPacket();
    } else {
      r := reader.ReadPacket();
    }
    sent, read := writer.sequence, reader.sequence;
  }
}
