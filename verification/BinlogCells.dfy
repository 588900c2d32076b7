/** Column types and metadata of row-based binlog events, and the length of a cell. */
module BinlogCells {
  import opened Bytes
  import opened Options
  import opened WireEncoding

  const TYPE_DECIMAL: byte := 0
  const TYPE_TINY: byte := 1
  const TYPE_SHORT: byte := 2
  const TYPE_LONG: byte := 3
  const TYPE_FLOAT: byte := 4
  const TYPE_DOUBLE: byte := 5
  const TYPE_NULL: byte := 6
  const TYPE_TIMESTAMP: byte := 7
  const TYPE_LONG_LONG: byte := 8
  const TYPE_INT24: byte := 9
  const TYPE_DATE: byte := 10
  const TYPE_TIME: byte := 11
  const TYPE_DATE_TIME: byte := 12
  const TYPE_YEAR: byte := 13
  const TYPE_NEW_DATE: byte := 14
  const TYPE_VARCHAR: byte := 15
  const TYPE_BIT: byte := 16
  const TYPE_TIMESTAMP2: byte := 17
  const TYPE_DATE_TIME2: byte := 18
  const TYPE_TIME2: byte := 19
  const TYPE_JSON: byte := 245
  const TYPE_NEW_DECIMAL: byte := 246
  const TYPE_ENUM: byte := 247
  const TYPE_SET: byte := 248
  const TYPE_TINY_BLOB: byte := 249
  const TYPE_MEDIUM_BLOB: byte := 250
  const TYPE_LONG_BLOB: byte := 251
  const TYPE_BLOB: byte := 252
  const TYPE_VAR_STRING: byte := 253
  const TYPE_STRING: byte := 254
  const TYPE_GEOMETRY: byte := 255

  // ----- metadata -----

  /** How the metadata of a type is stored. */
  datatype Layout = Nothing | OneByte | BigEndian | LittleEndian | Unknown

  function MetadataLayout(typ: byte): (r: Layout) {
    if typ in {TYPE_DECIMAL, TYPE_TINY, TYPE_SHORT, TYPE_LONG, TYPE_NULL, TYPE_TIMESTAMP, TYPE_LONG_LONG, TYPE_INT24,
               TYPE_DATE, TYPE_TIME, TYPE_DATE_TIME, TYPE_YEAR, TYPE_NEW_DATE} then Nothing
    else if typ in {TYPE_FLOAT, TYPE_DOUBLE, TYPE_TIMESTAMP2, TYPE_DATE_TIME2, TYPE_TIME2, TYPE_JSON, TYPE_TINY_BLOB,
                    TYPE_MEDIUM_BLOB, TYPE_LONG_BLOB, TYPE_BLOB, TYPE_GEOMETRY} then OneByte
    else if typ in {TYPE_NEW_DECIMAL, TYPE_ENUM, TYPE_SET, TYPE_STRING} then BigEndian
    else if typ in {TYPE_VARCHAR, TYPE_BIT, TYPE_VAR_STRING} then LittleEndian
    else Unknown
  }

  /** `metadataLength` of a known type. */
  function MetadataLength(typ: byte): (r: nat) {
    match MetadataLayout(typ)
    case Nothing => 0
    case OneByte => 1
    case BigEndian => 2
    case LittleEndian => 2
    case Unknown => 0
  }

  /** The bytes `metadataWrite` writes. */
  function MetadataBytes(typ: byte, value: uint16): (r: seq<byte>)
    ensures |r| == MetadataLength(typ)
  {
    match MetadataLayout(typ)
    case Nothing => []
    case OneByte => [value % 256]
    case BigEndian => [value / 256, value % 256]
    case LittleEndian => [value % 256, value / 256]
    case Unknown => []
  }

  /** `metadataRead`; `None` stands for an unknown type, and for reading past the end. */
  function ReadMetadata(data: seq<byte>, pos: nat, typ: byte): (r: Option<(uint16, nat)>)
    ensures r.Some? ==> r.value.1 == pos + MetadataLength(typ) && Fits(typ, r.value.0)
  {
    match MetadataLayout(typ)
    case Nothing => Some((0, pos))
    case OneByte => if pos < |data| then Some((data[pos], pos + 1)) else None
    case BigEndian => if pos + 1 < |data| then Some((256 * (data[pos] as int) + data[pos + 1], pos + 2)) else None
    case LittleEndian => if pos + 1 < |data| then Some((256 * (data[pos + 1] as int) + data[pos], pos + 2)) else None
    case Unknown => None
  }

  /** The metadata of a known type fits the bytes that hold it. */
  predicate Fits(typ: byte, value: uint16) {
    match MetadataLayout(typ)
    case Nothing => value == 0
    case OneByte => value < 256
    case BigEndian => true
    case LittleEndian => true
    case Unknown => false
  }

  lemma MetadataRoundTrip(data: seq<byte>, pos: nat, typ: byte, value: uint16)
    requires At(data, pos, MetadataBytes(typ, value)) && MetadataLayout(typ) != Unknown
    ensures var r := ReadMetadata(data, pos, typ);
            r.Some? && r.value.1 == pos + MetadataLength(typ) && (r.value.0 == value <==> Fits(typ, value))
  {
    var m := MetadataBytes(typ, value);
    var w := data[pos..pos + |m|];
    assert |m| > 0 ==> data[pos] == w[0] == m[0];
    assert |m| > 1 ==> data[pos + 1] == w[1] == m[1];
  }

  // ----- cells -----

  /** The bytes `d` digits take: the source's table `dig2bytes`. */
  function Dig2Bytes(d: nat): (r: nat)
    requires d <= 9
    ensures d == 0 <==> r == 0
    ensures r <= 4
  {
    if d == 0 then 0 else if d <= 2 then 1 else if d <= 4 then 2 else if d <= 6 then 3 else 4
  }

  /** The length of a NEWDECIMAL cell. */
  function DecimalLength(precision: nat, scale: nat): (r: nat)
    requires scale <= precision
  {
    var intg := precision - scale;
    intg / 9 * 4 + Dig2Bytes(intg % 9) + scale / 9 * 4 + Dig2Bytes(scale % 9)
  }

  /** The number in `w` bytes at `pos`, or nothing where they are not there. */
  function LengthPrefix(data: seq<byte>, pos: nat, w: nat): (r: Option<nat>) {
    if pos + w <= |data| then Some(w + GetLe(data[pos..pos + w])) else None
  }

  /** The most bytes a CHAR column holds: two bits of its length are kept, inverted, in the type byte. */
  function StringMax(metadata: uint16): (r: nat) {
    var bits := metadata / 0x1000 % 4;
    (3 - bits) * 0x100 + metadata % 256
  }

  /** `cellLength`; `None` stands for its errors, and for reading past the end. */
  function CellLength(data: seq<byte>, pos: nat, typ: byte, metadata: uint16): (r: Option<nat>) {
    if typ == TYPE_NULL then Some(0)
    else if typ == TYPE_TINY || typ == TYPE_YEAR then Some(1)
    else if typ == TYPE_SHORT then Some(2)
    else if typ == TYPE_INT24 then Some(3)
    else if typ == TYPE_LONG || typ == TYPE_FLOAT || typ == TYPE_TIMESTAMP then Some(4)
    else if typ == TYPE_LONG_LONG || typ == TYPE_DOUBLE then Some(8)
    else if typ == TYPE_DATE || typ == TYPE_TIME || typ == TYPE_NEW_DATE then Some(3)
    else if typ == TYPE_DATE_TIME then Some(8)
    else if typ == TYPE_VARCHAR || typ == TYPE_VAR_STRING then LengthPrefix(data, pos, if metadata > 255 then 2 else 1)
    else if typ == TYPE_BIT then Some((metadata / 256 * 8 + metadata % 256 + 7) / 8)
    else if typ == TYPE_TIMESTAMP2 then Some(4 + (metadata + 1) / 2)
    else if typ == TYPE_DATE_TIME2 then Some(5 + (metadata + 1) / 2)
    else if typ == TYPE_TIME2 then Some(3 + (metadata + 1) / 2)
    else if typ == TYPE_NEW_DECIMAL then
      if metadata % 256 <= metadata / 256 then Some(DecimalLength(metadata / 256, metadata % 256)) else None
    else if typ == TYPE_ENUM || typ == TYPE_SET then Some(metadata % 256)
    else if typ in {TYPE_JSON, TYPE_TINY_BLOB, TYPE_MEDIUM_BLOB, TYPE_LONG_BLOB, TYPE_BLOB, TYPE_GEOMETRY} then
      if 1 <= metadata <= 4 then LengthPrefix(data, pos, metadata) else None
    else if typ == TYPE_STRING then
      var t := metadata / 256;
      if t == TYPE_ENUM || t == TYPE_SET then Some(metadata % 256)
      else LengthPrefix(data, pos, if StringMax(metadata) > 255 then 2 else 1)
    else None
  }

  /** A cell is as long wherever its bytes stand. */
  lemma CellLengthMoves(cells: seq<byte>, p: nat, data: seq<byte>, pos: nat, typ: byte, metadata: uint16)
    requires At(data, pos, cells) && p <= |cells| && CellLength(cells, p, typ, metadata).Some?
    ensures CellLength(data, pos + p, typ, metadata) == CellLength(cells, p, typ, metadata)
  {
    PrefixMoves(cells, p, data, pos, 1);
    PrefixMoves(cells, p, data, pos, 2);
    PrefixMoves(cells, p, data, pos, 3);
    PrefixMoves(cells, p, data, pos, 4);
    hide LengthPrefix;
  }

  lemma SliceOfSlice(data: seq<byte>, a: nat, b: nat, p: nat, w: nat)
    requires a <= b <= |data| && p + w <= b - a
    ensures data[a..b][p..p + w] == data[a + p..a + p + w]
  {
    var inner, outer := data[a..b][p..p + w], data[a + p..a + p + w];
    forall k | 0 <= k < |inner|
      ensures inner[k] == outer[k]
    {
    }
  }

  lemma PrefixMoves(cells: seq<byte>, p: nat, data: seq<byte>, pos: nat, w: nat)
    requires At(data, pos, cells)
    ensures LengthPrefix(cells, p, w).Some? ==> LengthPrefix(data, pos + p, w) == LengthPrefix(cells, p, w)
  {
    if p + w <= |cells| {
      SliceOfSlice(data, pos, pos + |cells|, p, w);
    }
  }

  // ----- bitmaps -----

  /** `Bitmap`: bytes, and how many of their bits are used. */
  datatype Bitmap = Bitmap(data: seq<byte>, count: nat) {
    /** As many bytes as the bits need. */
    predicate Valid() {
      |data| == BitmapSize(count)
    }
  }

  function BitmapSize(count: nat): (r: nat) {
    (count + 7) / 8
  }

  /** Bit `k` of `b`: `b & (1 << k) > 0`. */
  predicate BitOf(b: nat, k: nat) {
    if k == 0 then b % 2 == 1 else BitOf(b / 2, k - 1)
  }

  /** What `b |= 1 << k` or `b &^= 1 << k` leaves in `b`. */
  function WithBit(b: nat, k: nat, value: bool): (r: int) {
    if BitOf(b, k) == value then b else if value then b + Pow2(k) else b - Pow2(k)
  }

  /** One bit is as it was set, and every other bit is as it was. */
  lemma {:induction false} WithBitSets(b: nat, k: nat, value: bool, j: nat, n: nat)
    requires b < Pow2(n) && k < n
    ensures 0 <= WithBit(b, k, value) < Pow2(n)
    ensures BitOf(WithBit(b, k, value), j) == if j == k then value else BitOf(b, j)
    decreases k
  {
    if k == 0 {
    } else {
      WithBitSets(b / 2, k - 1, value, if j == 0 then 0 else j - 1, n - 1);
      assert WithBit(b, k, value) == 2 * WithBit(b / 2, k - 1, value) + b % 2;
    }
  }

  /** `Bit` */
  predicate Bit(data: seq<byte>, index: nat)
    requires index / 8 < |data|
  {
    BitOf(data[index / 8], index % 8)
  }

  /** `Set`, on the bitmap's bytes */
  method SetBit(data: array<byte>, index: nat, value: bool)
    requires index / 8 < data.Length
    modifies data
    ensures forall j :: 0 <= j < 8 * data.Length ==>
                          Bit(data[..], j) == if j == index then value else Bit(old(data[..]), j)
  {
    assert Pow2(8) == 256;
    ghost var b: nat := data[index / 8];
    forall j: nat
      ensures 0 <= WithBit(b, index % 8, value) < 256
      ensures BitOf(WithBit(b, index % 8, value), j) == if j == index % 8 then value else BitOf(b, j)
    {
      WithBitSets(b, index % 8, value, j, 8);
    }
    data[index / 8] := WithBit(data[index / 8], index % 8, value);
  }

  /** `newBitmap`, where the bytes are there */
  function NewBitmap(data: seq<byte>, pos: nat, count: nat): (r: Option<(Bitmap, nat)>)
    ensures r.Some? ==> r.value.0.Valid() && r.value.0.count == count && r.value.1 == pos + BitmapSize(count) <= |data|
  {
    var end := pos + BitmapSize(count);
    if end <= |data| then Some((Bitmap(data[pos..end], count), end)) else None
  }

  /** How many of the first `n` bits are set. */
  function Ones(data: seq<byte>, n: nat): (r: nat)
    requires BitmapSize(n) <= |data|
    ensures r <= n
  {
    if n == 0 then 0 else Ones(data, n - 1) + if Bit(data, n - 1) then 1 else 0
  }

  /** `BitCount` */
  method BitCount(b: Bitmap) returns (sum: nat)
    requires b.Valid()
    ensures sum == Ones(b.data, b.count)
  {
    sum := 0;
    for i := 0 to b.count
      invariant sum == Ones(b.data, i)
    {
      if Bit(b.data, i) {
        sum := sum + 1;
      }
    }
  }

  /** A bit that is set is counted. */
  lemma {:induction false} OnesCount(data: seq<byte>, c: nat, n: nat)
    requires BitmapSize(n) <= |data| && c < n
    ensures Ones(data, c) + (if Bit(data, c) then 1 else 0) <= Ones(data, n)
    decreases n
  {
    if c == n - 1 {
    } else {
      OnesCount(data, c, n - 1);
    }
  }

  // ----- table maps -----

  /** `TableMap` */
  datatype TableMap = TableMap(
    flags: uint16, database: seq<byte>, name: seq<byte>, types: seq<byte>, canBeNull: Bitmap, metadata: seq<uint16>)
}
