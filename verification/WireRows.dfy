/** Text-protocol rows, and what tells a row from an EOF or an error packet. */
module WireRows {
  import opened Bytes
  import opened WireEncoding
  import opened WirePackets

  const OK_PACKET: byte := 0x00
  const NULL_VALUE: byte := 0xfb
  const EOF_PACKET: byte := 0xfe
  const ERR_PACKET: byte := 0xff

  /** A column value: NULL, or its raw text. */
  datatype Value = Null | Text(raw: seq<byte>) {
    /** Lengths are 64-bit numbers. */
    predicate Sized() {
      Text? ==> |raw| < 0x1_0000_0000_0000_0000
    }
  }

  predicate SizedRow(row: seq<Value>) {
    forall k :: 0 <= k < |row| ==> row[k].Sized()
  }

  function ValueBytes(v: Value): (r: seq<byte>)
    requires v.Sized()
  {
    if v.Null? then [NULL_VALUE] else LenEncString(v.raw)
  }

  /** The payload of a row. */
  function RowBytes(row: seq<Value>): (r: seq<byte>)
    requires SizedRow(row)
  {
    if row == [] then [] else ValueBytes(row[0]) + RowBytes(row[1..])
  }

  /** `isEOFPacket`, by whether CLIENT_DEPRECATE_EOF is on. */
  predicate IsEof(data: seq<byte>, deprecateEof: bool)
    requires data != []
  {
    data[0] == EOF_PACKET && |data| < if deprecateEof then MAX_PACKET_SIZE else 9
  }

  /** `isErrorPacket` */
  predicate IsErr(data: seq<byte>)
    requires data != []
  {
    data[0] == ERR_PACKET
  }

  /** A row with a column is never empty, and never taken for an EOF or an error packet, in either protocol. */
  lemma RowIsNotAnEnd(row: seq<Value>, deprecateEof: bool)
    requires row != [] && SizedRow(row)
    ensures var data := RowBytes(row);
            data != [] && !IsEof(data, deprecateEof) && !IsErr(data)
  {
    var head := ValueBytes(row[0]);
    if row[0].Text? {
      LenEncIntFirst(|row[0].raw|);
      assert head[0] == LenEncInt(|row[0].raw|)[0];
    }
    assert RowBytes(row)[0] == head[0] && |RowBytes(row)| >= |head|;
  }

  /** The first byte of a column tells NULL from every string, the empty one included. */
  lemma NullIsNotText(v: Value)
    requires v.Sized()
    ensures ValueBytes(v) != [] && (ValueBytes(v)[0] == NULL_VALUE <==> v.Null?)
  {
    if v.Text? {
      LenEncIntFirst(|v.raw|);
      assert ValueBytes(v)[0] == LenEncInt(|v.raw|)[0];
    }
  }

  datatype ParseError = Malformed | OutOfRange
  datatype Parsed<+T> = Got(value: T) | Bad(error: ParseError)

  /** What is left of the packet at `pos` is `row`. */
  ghost predicate Left(data: seq<byte>, pos: nat, row: seq<Value>) {
    pos <= |data| && SizedRow(row) && data[pos..] == RowBytes(row)
  }

  /** What a parser finds where a row's columns start. */
  lemma ColumnAt(data: seq<byte>, pos: nat, row: seq<Value>)
    requires row != [] && Left(data, pos, row)
    ensures pos < |data| && (data[pos] == NULL_VALUE <==> row[0].Null?)
    ensures row[0].Null? ==> Left(data, pos + 1, row[1..])
    ensures row[0].Text? ==>
              && ReadLenEncString(data, pos).Some?
              && var (s, next) := ReadLenEncString(data, pos).value;
              s == row[0].raw && Left(data, next, row[1..])
  {
    RestSplit(data, pos, ValueBytes(row[0]), RowBytes(row[1..]));
    NullIsNotText(row[0]);
    if row[0].Text? {
      LenEncStringRoundTrip(data, pos, row[0].raw);
    }
  }

  /** One column of `parseRow`; a column that should start past the packet is an index out of range. */
  method ParseValue(data: seq<byte>, pos: nat, ghost row: seq<Value>) returns (r: Parsed<(Value, nat)>)
    ensures Left(data, pos, row) && row != [] ==> r.Got? && r.value.0 == row[0] && Left(data, r.value.1, row[1..])
  {
    if Left(data, pos, row) && row != [] {
      ColumnAt(data, pos, row);
    }
    if pos >= |data| {
      return Bad(OutOfRange);
    }
    if data[pos] == NULL_VALUE {
      return Got((Null, pos + 1));
    }
    var s := ReadLenEncString(data, pos);
    if s.None? {
      return Bad(Malformed);
    }
    return Got((Text(s.value.0), s.value.1));
  }

  /** `parseRow` */
  method ParseRow(data: seq<byte>, columns: nat, ghost row: seq<Value>) returns (r: Parsed<seq<Value>>)
    ensures r.Got? ==> |r.value| == columns
    ensures |row| == columns && SizedRow(row) && data == RowBytes(row) ==> r == Got(row)
  {
    ghost var good := |row| == columns && SizedRow(row) && data == RowBytes(row);
    var result: seq<Value> := [];
    var pos := 0;
    for i := 0 to columns
      invariant |result| == i
      invariant good ==> result == row[..i] && Left(data, pos, row[i..])
    {
      var v := ParseValue(data, pos, if good then row[i..] else []);
      if v.Bad? {
        return Bad(v.error);
      }
      result := result + [v.value.0];
      pos := v.value.1;
      assert good ==> row[i..][1..] == row[i + 1..];
    }
    assert good ==> row[..columns] == row;
    return Got(result);
  }

  // ----- writing -----

  lemma {:induction false} RowBytesSnoc(row: seq<Value>, v: Value)
    requires SizedRow(row) && v.Sized()
    ensures SizedRow(row + [v]) && RowBytes(row + [v]) == RowBytes(row) + ValueBytes(v)
  {
    if row == [] {
      assert row + [v] == [v];
    } else {
      RowBytesSnoc(row[1..], v);
      assert (row + [v])[1..] == row[1..] + [v];
      Assoc(ValueBytes(row[0]), RowBytes(row[1..]), ValueBytes(v));
    }
  }

  /** The rest of a row fits after any part of it. */
  lemma {:induction false} RowBytesFit(row: seq<Value>, i: nat)
    requires SizedRow(row) && i < |row|
    ensures SizedRow(row[..i]) && |RowBytes(row[..i])| + |ValueBytes(row[i])| <= |RowBytes(row)|
    decreases i
  {
    if i == 0 {
    } else {
      RowBytesFit(row[1..], i - 1);
      assert row[..i][1..] == row[1..][..i - 1];
    }
  }

  /** One column of `writeRow`. */
  method WriteValue(data: array<byte>, pos: nat, v: Value) returns (next: nat)
    requires v.Sized() && pos + |ValueBytes(v)| <= data.Length
    modifies data
    ensures next == pos + |ValueBytes(v)| && data[..] == Written(old(data[..]), pos, ValueBytes(v))
  {
    if v.Null? {
      next := WriteBytes(data, pos, [NULL_VALUE]);
    } else {
      WrittenTwice(data[..], pos, LenEncInt(|v.raw|), v.raw);
      next := WriteLenEncInt(data, pos, |v.raw|);
      next := WriteBytes(data, next, v.raw);
    }
  }

  /** The length pass of `writeRow`. */
  method RowLength(row: seq<Value>) returns (length: nat)
    requires SizedRow(row)
    ensures length == |RowBytes(row)|
  {
    length := 0;
    for i := 0 to |row|
      invariant SizedRow(row[..i]) && length == |RowBytes(row[..i])|
    {
      RowBytesSnoc(row[..i], row[i]);
      assert row[..i] + [row[i]] == row[..i + 1];
      if row[i].Null? {
        length := length + 1;
      } else {
        length := length + LenEncIntSize(|row[i].raw|) + |row[i].raw|;
      }
    }
    assert row[..|row|] == row;
  }

  /** The writing pass of `writeRow`. */
  method FillRow(data: array<byte>, row: seq<Value>)
    requires SizedRow(row) && data.Length == PACKET_HEADER_SIZE + |RowBytes(row)|
    modifies data
    ensures data[PACKET_HEADER_SIZE..] == RowBytes(row)
  {
    var pos := PACKET_HEADER_SIZE;
    assert RowBytes([]) == [] && row[..0] == [];
    assert Filled(data[..], PACKET_HEADER_SIZE, pos, []);
    hide Filled, RowBytes, ValueBytes;
    for i := 0 to |row|
      invariant SizedRow(row[..i]) && pos == PACKET_HEADER_SIZE + |RowBytes(row[..i])|
      invariant Filled(data[..], PACKET_HEADER_SIZE, pos, RowBytes(row[..i]))
    {
      RowBytesFit(row, i);
      RowBytesSnoc(row[..i], row[i]);
      assert row[..i] + [row[i]] == row[..i + 1];
      FillMore(data[..], PACKET_HEADER_SIZE, pos, RowBytes(row[..i]), ValueBytes(row[i]));
      pos := WriteValue(data, pos, row[i]);
    }
    assert row[..|row|] == row;
    FilledUp(data[..], PACKET_HEADER_SIZE, pos, RowBytes(row));
    assert data[4..] == data[..][4..];
  }

  /** `writeRow` */
  method WriteRow(c: Conn, row: seq<Value>)
    requires c.policy == EphemeralUnused && SizedRow(row)
    modifies c
    ensures c.policy == EphemeralUnused && c.input == old(c.input)
    ensures (c.output, c.sequence) == SentAll(old(c.output), [RowBytes(row)], old(c.sequence))
  {
    var length := RowLength(row);
    var data := c.StartEphemeralPacket(length);
    FillRow(data, row);
    c.WriteEphemeralPacket(data);
  }
}
