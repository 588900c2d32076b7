/** Rows events of the row-based binlog: the printer and the parser. */
module BinlogRows {
  import opened Bytes
  import opened Options
  import opened WireEncoding
  import opened BinlogCells

  /** `Row` */
  datatype Row = Row(nullIdentify: Bitmap, nullData: Bitmap, identify: seq<byte>, data: seq<byte>)

  /** `Rows` */
  datatype Rows = Rows(flags: uint16, identifyColumns: Bitmap, dataColumns: Bitmap, rows: seq<Row>)

  const NO_BITMAP: Bitmap := Bitmap([], 0)

  const WRITE_ROWS_V1: byte := 23
  const UPDATE_ROWS_V1: byte := 24
  const DELETE_ROWS_V1: byte := 25
  const WRITE_ROWS_V2: byte := 30
  const UPDATE_ROWS_V2: byte := 31
  const DELETE_ROWS_V2: byte := 32

  predicate HasIdentify(typ: byte) {
    typ == UPDATE_ROWS_V1 || typ == UPDATE_ROWS_V2 || typ == DELETE_ROWS_V1 || typ == DELETE_ROWS_V2
  }

  predicate HasData(typ: byte) {
    typ == WRITE_ROWS_V1 || typ == WRITE_ROWS_V2 || typ == UPDATE_ROWS_V1 || typ == UPDATE_ROWS_V2
  }

  predicate IsV2(typ: byte) {
    typ == WRITE_ROWS_V2 || typ == UPDATE_ROWS_V2 || typ == DELETE_ROWS_V2
  }

  // ----- cells of a row -----

  /** The columns an event speaks of, and which of them a row has no value for. */
  ghost predicate Masks(columns: Bitmap, nulls: Bitmap, n: nat) {
    columns.Valid() && columns.count == n && nulls.Valid() && nulls.count == Ones(columns.data, n)
  }

  /** The bytes column `c` takes at `pos`: none if it is not there or NULL. */
  ghost function CellSize(data: seq<byte>, pos: nat, columns: Bitmap, nulls: Bitmap, tm: TableMap, c: nat,
                          n: nat): (r: Option<nat>)
    requires Masks(columns, nulls, n) && c < n
  {
    OnesCount(columns.data, c, n);
    if !Bit(columns.data, c) || Bit(nulls.data, Ones(columns.data, c)) then Some(0)
    else if c >= |tm.types| || c >= |tm.metadata| then None
    else CellLength(data, pos, tm.types[c], tm.metadata[c])
  }

  /** Where the cells of the columns from `c` on end, if they can be told apart. */
  ghost function CellsEnd(data: seq<byte>, pos: nat, columns: Bitmap, nulls: Bitmap, tm: TableMap, c: nat,
                          n: nat): (r: Option<nat>)
    requires Masks(columns, nulls, n) && c <= n
    ensures r.Some? ==> pos <= r.value
    decreases n - c
  {
    if c == n then Some(pos)
    else
      match CellSize(data, pos, columns, nulls, tm, c, n)
      case None => None
      case Some(l) => CellsEnd(data, pos + l, columns, nulls, tm, c + 1, n)
  }

  lemma CellSizeMoves(cells: seq<byte>, p: nat, data: seq<byte>, pos: nat,
                      columns: Bitmap, nulls: Bitmap, tm: TableMap, c: nat, n: nat)
    requires Masks(columns, nulls, n) && c < n && At(data, pos, cells) && p <= |cells|
    requires CellSize(cells, p, columns, nulls, tm, c, n).Some?
    ensures CellSize(data, pos + p, columns, nulls, tm, c, n) == CellSize(cells, p, columns, nulls, tm, c, n)
  {
    hide At, CellLength;
    OnesCount(columns.data, c, n);
    if Bit(columns.data, c) && !Bit(nulls.data, Ones(columns.data, c)) {
      CellLengthMoves(cells, p, data, pos, tm.types[c], tm.metadata[c]);
    }
  }

  /** Cells that end where their bytes end do so wherever those bytes stand. */
  lemma {:induction false} CellsMove(cells: seq<byte>, p: nat, data: seq<byte>, pos: nat,
                                     columns: Bitmap, nulls: Bitmap, tm: TableMap, c: nat, n: nat)
    requires Masks(columns, nulls, n) && c <= n && At(data, pos, cells)
    requires CellsEnd(cells, p, columns, nulls, tm, c, n) == Some(|cells|)
    ensures CellsEnd(data, pos + p, columns, nulls, tm, c, n) == Some(pos + |cells|)
    decreases n - c
  {
    hide At, CellSize, Masks;
    if c >= n {
    } else {
      CellSizeMoves(cells, p, data, pos, columns, nulls, tm, c, n);
      var l := CellSize(cells, p, columns, nulls, tm, c, n).value;
      CellsMove(cells, p + l, data, pos, columns, nulls, tm, c + 1, n);
    }
  }

  /** Without columns there are no cells. */
  lemma {:induction false} NoCells(data: seq<byte>, pos: nat, columns: Bitmap, nulls: Bitmap, tm: TableMap, c: nat,
                                   n: nat)
    requires Masks(columns, nulls, n) && c <= n && Ones(columns.data, n) == 0
    ensures CellsEnd(data, pos, columns, nulls, tm, c, n) == Some(pos)
    decreases n - c
  {
    hide CellLength;
    if c >= n {
    } else {
      OnesCount(columns.data, c, n);
      NoCells(data, pos, columns, nulls, tm, c + 1, n);
    }
  }

  /** The cell loop of `Rows`. */
  method SkipCells(data: seq<byte>, start: nat, columns: Bitmap, nulls: Bitmap, tm: TableMap, n: nat)
    returns (r: Option<nat>)
    requires Masks(columns, nulls, n)
    ensures r == CellsEnd(data, start, columns, nulls, tm, 0, n)
  {
    hide CellLength, Bit;
    var pos, valueIndex := start, 0;
    for c := 0 to n
      invariant valueIndex == Ones(columns.data, c)
      invariant CellsEnd(data, pos, columns, nulls, tm, c, n) == CellsEnd(data, start, columns, nulls, tm, 0, n)
    {
      OnesCount(columns.data, c, n);
      if !Bit(columns.data, c) {
        continue;
      }
      if Bit(nulls.data, valueIndex) {
        valueIndex := valueIndex + 1;
        continue;
      }
      if c >= |tm.types| || c >= |tm.metadata| {
        return None;
      }
      var l := CellLength(data, pos, tm.types[c], tm.metadata[c]);
      if l.None? {
        return None;
      }
      pos := pos + l.value;
      valueIndex := valueIndex + 1;
    }
    return Some(pos);
  }

  // ----- one image of a row -----

  /** A null bitmap and cells that belong to `columns`. */
  ghost predicate GoodImage(columns: Bitmap, nulls: Bitmap, cells: seq<byte>, tm: TableMap, n: nat) {
    Masks(columns, nulls, n) && CellsEnd(cells, 0, columns, nulls, tm, 0, n) == Some(|cells|)
  }

  lemma ImageRoundTrip(data: seq<byte>, pos: nat, columns: Bitmap, tm: TableMap, n: nat, nulls: Bitmap,
                       cells: seq<byte>)
    requires GoodImage(columns, nulls, cells, tm, n) && At(data, pos, nulls.data + cells)
    ensures var start := pos + |nulls.data|;
            var end := start + |cells|;
            && NewBitmap(data, pos, Ones(columns.data, n)) == Some((nulls, start))
            && CellsEnd(data, start, columns, nulls, tm, 0, n) == Some(end)
            && end <= |data| && data[start..end] == cells
  {
    hide CellsEnd, Ones;
    AtSplit(data, pos, nulls.data, cells);
    CellsMove(cells, 0, data, pos + |nulls.data|, columns, nulls, tm, 0, n);
  }

  datatype Image = Image(nulls: Bitmap, cells: seq<byte>, next: nat)

  /** The null bitmap and the cells of one image of a row, before or after the change. */
  method ReadImage(data: seq<byte>, pos: nat, columns: Bitmap, numColumns: nat, tm: TableMap, n: nat,
                   ghost nulls: Bitmap, ghost cells: seq<byte>) returns (r: Option<Image>)
    requires columns.Valid() && columns.count == n && numColumns == Ones(columns.data, n)
    ensures r.Some? ==> pos + BitmapSize(numColumns) <= r.value.next <= |data|
    ensures GoodImage(columns, nulls, cells, tm, n) && At(data, pos, nulls.data + cells) ==>
              r == Some(Image(nulls, cells, pos + |nulls.data| + |cells|))
  {
    ghost var good := GoodImage(columns, nulls, cells, tm, n) && At(data, pos, nulls.data + cells);
    if good {
      ImageRoundTrip(data, pos, columns, tm, n, nulls, cells);
    }
    hide At, GoodImage, CellsEnd;
    var bitmap := NewBitmap(data, pos, numColumns);
    if bitmap.None? {
      return None;
    }
    var (read, start) := bitmap.value;
    var end := SkipCells(data, start, columns, read, tm, n);
    if end.None? || end.value > |data| {
      return None;
    }
    return Some(Image(read, data[start..end.value], end.value));
  }

  // ----- rows -----

  /** The payload of one row. */
  function RowBytes(typ: byte, row: Row): (r: seq<byte>) {
    (if HasIdentify(typ) then row.nullIdentify.data + row.identify else [])
    + if HasData(typ) then row.nullData.data + row.data else []
  }

  function RowsBytes(typ: byte, rows: seq<Row>): (r: seq<byte>) {
    if rows == [] then [] else RowBytes(typ, rows[0]) + RowsBytes(typ, rows[1..])
  }

  /** An image that an event type has belongs to its columns; one it does not have is empty. */
  ghost predicate GoodRow(typ: byte, rows: Rows, row: Row, tm: TableMap, n: nat) {
    && (if HasIdentify(typ) then GoodImage(rows.identifyColumns, row.nullIdentify, row.identify, tm, n)
        else row.nullIdentify == NO_BITMAP && row.identify == [])
    && (if HasData(typ) then GoodImage(rows.dataColumns, row.nullData, row.data, tm, n)
        else row.nullData == NO_BITMAP && row.data == [])
  }

  /** The number of columns `newRowsEvent` writes. */
  function RowLength(typ: byte, rows: Rows): (r: nat) {
    if HasIdentify(typ) then rows.identifyColumns.count else rows.dataColumns.count
  }

  predicate GoodColumns(has: bool, columns: Bitmap, n: nat) {
    if has then columns.Valid() && columns.count == n else columns == NO_BITMAP
  }

  ghost predicate GoodRows(typ: byte, rows: Rows, tm: TableMap) {
    var n := RowLength(typ, rows);
    && n < 0x8000_0000_0000_0000
    && GoodColumns(HasIdentify(typ), rows.identifyColumns, n) && GoodColumns(HasData(typ), rows.dataColumns, n)
    && forall k :: 0 <= k < |rows.rows| ==> GoodRow(typ, rows, rows.rows[k], tm, n)
  }

  /** One row of the loop of `Rows`, and the position after it. */
  method ReadRow(data: seq<byte>, pos: nat, typ: byte, rows: Rows, numIdentify: nat, numData: nat, tm: TableMap, n: nat,
                 ghost good: bool, ghost row: Row) returns (r: Option<(Row, nat)>)
    requires GoodColumns(HasIdentify(typ), rows.identifyColumns, n) && GoodColumns(HasData(typ), rows.dataColumns, n)
    requires HasIdentify(typ) ==> numIdentify == Ones(rows.identifyColumns.data, n)
    requires HasData(typ) ==> numData == Ones(rows.dataColumns.data, n)
    requires pos <= |data|
    requires good ==> GoodRow(typ, rows, row, tm, n) && At(data, pos, RowBytes(typ, row))
    ensures r.Some? ==> pos <= r.value.1 <= |data|
    ensures r.Some? && HasIdentify(typ) ==> pos + BitmapSize(numIdentify) <= r.value.1
    ensures r.Some? && HasData(typ) ==> pos + BitmapSize(numData) <= r.value.1
    ensures good ==> r == Some((row, pos + |RowBytes(typ, row)|))
  {
    hide GoodImage;
    var read, next := Row(NO_BITMAP, NO_BITMAP, [], []), pos;
    if good && HasIdentify(typ) && HasData(typ) {
      AtSplit(data, pos, row.nullIdentify.data + row.identify, row.nullData.data + row.data);
    }
    assert good && !HasData(typ) ==>
        RowBytes(typ, row) == if HasIdentify(typ) then row.nullIdentify.data + row.identify else [];
    assert good && !HasIdentify(typ) ==>
        RowBytes(typ, row) == if HasData(typ) then row.nullData.data + row.data else [];
    if HasIdentify(typ) {
      var image := ReadImage(data, next, rows.identifyColumns, numIdentify, tm, n, row.nullIdentify, row.identify);
      if image.None? {
        return None;
      }
      read := read.(nullIdentify := image.value.nulls, identify := image.value.cells);
      next := image.value.next;
    }
    if HasData(typ) {
      var image := ReadImage(data, next, rows.dataColumns, numData, tm, n, row.nullData, row.data);
      if image.None? {
        return None;
      }
      read := read.(nullData := image.value.nulls, data := image.value.cells);
      next := image.value.next;
    }
    return Some((read, next));
  }

  /** Some column is present, so that every row takes at least a byte. */
  ghost predicate Present(typ: byte, rows: Rows) {
    || (HasIdentify(typ) && rows.identifyColumns.Valid()
        && Ones(rows.identifyColumns.data, rows.identifyColumns.count) > 0)
    || (HasData(typ) && rows.dataColumns.Valid() && Ones(rows.dataColumns.data, rows.dataColumns.count) > 0)
  }

  /** Rows without columns leave no trace. */
  lemma EmptyRow(typ: byte, rows: Rows, row: Row, tm: TableMap, n: nat)
    requires GoodColumns(HasIdentify(typ), rows.identifyColumns, n) && GoodColumns(HasData(typ), rows.dataColumns, n)
    requires GoodRow(typ, rows, row, tm, n) && !Present(typ, rows)
    ensures RowBytes(typ, row) == []
  {
    if HasIdentify(typ) {
      NoCells(row.identify, 0, rows.identifyColumns, row.nullIdentify, tm, 0, n);
    }
    if HasData(typ) {
      NoCells(row.data, 0, rows.dataColumns, row.nullData, tm, 0, n);
    }
  }

  /** Rows with columns leave at least a byte. */
  lemma SomeRow(typ: byte, rows: Rows, row: Row, tm: TableMap, n: nat)
    requires GoodColumns(HasIdentify(typ), rows.identifyColumns, n) && GoodColumns(HasData(typ), rows.dataColumns, n)
    requires GoodRow(typ, rows, row, tm, n) && Present(typ, rows)
    ensures RowBytes(typ, row) != []
  {
  }

  lemma {:induction false} EmptyRows(typ: byte, rows: Rows, more: seq<Row>, tm: TableMap, n: nat)
    requires GoodColumns(HasIdentify(typ), rows.identifyColumns, n) && GoodColumns(HasData(typ), rows.dataColumns, n)
    requires !Present(typ, rows) && forall k :: 0 <= k < |more| ==> GoodRow(typ, rows, more[k], tm, n)
    ensures RowsBytes(typ, more) == []
    decreases |more|
  {
    hide GoodRow, RowBytes, Present;
    if more == [] {
    } else {
      EmptyRow(typ, rows, more[0], tm, n);
      EmptyRows(typ, rows, more[1..], tm, n);
    }
  }

  // ----- events -----

  function ColumnsBytes(typ: byte, rows: Rows): (r: seq<byte>) {
    (if HasIdentify(typ) then rows.identifyColumns.data else []) + if HasData(typ) then rows.dataColumns.data else []
  }

  /** What comes before the rows: table ID, flags, an empty extra part, the column count and the bitmaps. */
  function HeadBytes(typ: byte, tableId: nat, rows: Rows): (r: seq<byte>)
    requires RowLength(typ, rows) < 0x8000_0000_0000_0000
  {
    PutLe(tableId, 6)
    + (PutLe(rows.flags, 2) + (PutLe(2, 2) + (LenEncInt(RowLength(typ, rows)) + ColumnsBytes(typ, rows))))
  }

  /** The payload of a rows event. */
  function EventBytes(typ: byte, tableId: nat, rows: Rows): (r: seq<byte>)
    requires RowLength(typ, rows) < 0x8000_0000_0000_0000
  {
    HeadBytes(typ, tableId, rows) + RowsBytes(typ, rows.rows)
  }

  datatype Head = Head(rows: Rows, columns: nat, next: nat)

  /** The flags, the column count and the position after it. */
  function ReadCounts(data: seq<byte>, typ: byte, shortHeader: bool): (r: Option<(uint16, nat, nat)>)
    ensures r.Some? ==> r.value.2 <= |data|
  {
    PowersOf256();
    var pos := if shortHeader then 4 else 6;
    match ReadFixed(data, pos, 2)
    case None => None
    case Some((flags, p1)) =>
      var extra := if IsV2(typ) then ReadFixed(data, p1, 2) else Some((0, p1));
      match extra
      case None => None
      case Some((extraLength, _)) =>
        match ReadLenEncInt(data, p1 + extraLength)
        case None => None
        case Some((count, p2)) => Some((flags, count, p2))
  }

  lemma CountsRoundTrip(data: seq<byte>, typ: byte, tableId: nat, flags: uint16, n: uint64, more: seq<byte>)
    requires IsV2(typ) && At(data, 0, PutLe(tableId, 6) + (PutLe(flags, 2) + (PutLe(2, 2) + (LenEncInt(n) + more))))
    ensures ReadCounts(data, typ, false) == Some((flags, n, 10 + LenEncIntSize(n)))
    ensures At(data, 10 + LenEncIntSize(n), more)
    ensures |PutLe(tableId, 6) + (PutLe(flags, 2) + (PutLe(2, 2) + (LenEncInt(n) + more)))|
         == 10 + LenEncIntSize(n) + |more|
  {
    PowersOf256();
    var n3 := LenEncInt(n) + more;
    var n2 := PutLe(2, 2) + n3;
    var n1 := PutLe(flags, 2) + n2;
    hide PutLe, LenEncInt, ReadLenEncInt, At;
    AtSplit(data, 0, PutLe(tableId, 6), n1);
    AtSplit(data, 6, PutLe(flags, 2), n2);
    AtSplit(data, 8, PutLe(2, 2), n3);
    AtSplit(data, 10, LenEncInt(n), more);
    FixedRoundTrip(data, 6, flags, 2);
    FixedRoundTrip(data, 8, 2, 2);
    LenEncIntRoundTrip(data, 10, n);
  }

  /** The bitmap of columns, if the event type has one. */
  function ReadColumns(data: seq<byte>, pos: nat, has: bool, n: nat): (r: Option<(Bitmap, nat)>)
    requires pos <= |data|
    ensures r.Some? ==> GoodColumns(has, r.value.0, n) && r.value.1 <= |data|
  {
    if has then NewBitmap(data, pos, n) else Some((NO_BITMAP, pos))
  }

  lemma ColumnsRoundTrip(data: seq<byte>, pos: nat, has: bool, n: nat, columns: Bitmap)
    requires GoodColumns(has, columns, n) && At(data, pos, if has then columns.data else [])
    ensures ReadColumns(data, pos, has, n) == Some((columns, pos + if has then |columns.data| else 0))
  {
  }

  lemma HeadRoundTrip(data: seq<byte>, typ: byte, tableId: nat, rows: Rows)
    requires IsV2(typ) && RowLength(typ, rows) < 0x8000_0000_0000_0000
    requires GoodColumns(HasIdentify(typ), rows.identifyColumns, RowLength(typ, rows))
    requires GoodColumns(HasData(typ), rows.dataColumns, RowLength(typ, rows))
    requires At(data, 0, HeadBytes(typ, tableId, rows))
    ensures var n := RowLength(typ, rows);
            var p1 := 10 + LenEncIntSize(n);
            var p2 := p1 + if HasIdentify(typ) then |rows.identifyColumns.data| else 0;
            && ReadCounts(data, typ, false) == Some((rows.flags, n, p1)) && p2 <= |data|
            && ReadColumns(data, p1, HasIdentify(typ), n) == Some((rows.identifyColumns, p2))
            && ReadColumns(data, p2, HasData(typ), n) == Some((rows.dataColumns, |HeadBytes(typ, tableId, rows)|))
  {
    var n := RowLength(typ, rows);
    var identify := if HasIdentify(typ) then rows.identifyColumns.data else [];
    var present := if HasData(typ) then rows.dataColumns.data else [];
    hide At, ReadCounts, ReadColumns, PutLe, LenEncInt, GoodColumns;
    CountsRoundTrip(data, typ, tableId, rows.flags, n, identify + present);
    ColumnsBoth(data, 10 + LenEncIntSize(n), typ, rows, n, identify, present);
  }

  lemma ColumnsBoth(data: seq<byte>, pos: nat, typ: byte, rows: Rows, n: nat, identify: seq<byte>, present: seq<byte>)
    requires GoodColumns(HasIdentify(typ), rows.identifyColumns, n) && GoodColumns(HasData(typ), rows.dataColumns, n)
    requires identify == (if HasIdentify(typ) then rows.identifyColumns.data else [])
    requires present == if HasData(typ) then rows.dataColumns.data else []
    requires At(data, pos, identify + present)
    ensures ReadColumns(data, pos, HasIdentify(typ), n) == Some((rows.identifyColumns, pos + |identify|))
    ensures ReadColumns(data, pos + |identify|, HasData(typ), n)
         == Some((rows.dataColumns, pos + |identify| + |present|))
  {
    AtSplit(data, pos, identify, present);
    ColumnsRoundTrip(data, pos, HasIdentify(typ), n, rows.identifyColumns);
    ColumnsRoundTrip(data, pos + |identify|, HasData(typ), n, rows.dataColumns);
  }

  /** The part of `Rows` before the row loop. */
  method ReadHead(data: seq<byte>, typ: byte, shortHeader: bool, ghost good: bool, ghost tableId: nat, ghost rows: Rows)
    returns (r: Option<Head>)
    requires good ==> IsV2(typ) && !shortHeader && RowLength(typ, rows) < 0x8000_0000_0000_0000
    requires good ==> GoodColumns(HasIdentify(typ), rows.identifyColumns, RowLength(typ, rows))
    requires good ==> GoodColumns(HasData(typ), rows.dataColumns, RowLength(typ, rows))
    requires good ==> At(data, 0, HeadBytes(typ, tableId, rows))
    ensures r.Some? ==> r.value.next <= |data|
    ensures r.Some? ==> GoodColumns(HasIdentify(typ), r.value.rows.identifyColumns, r.value.columns)
                        && GoodColumns(HasData(typ), r.value.rows.dataColumns, r.value.columns)
    ensures good ==> r == Some(Head(rows.(rows := []), RowLength(typ, rows), |HeadBytes(typ, tableId, rows)|))
  {
    hide ReadCounts, ReadColumns, At, HeadBytes;
    if good {
      HeadRoundTrip(data, typ, tableId, rows);
    }
    var counts := ReadCounts(data, typ, shortHeader);
    if counts.None? {
      return None;
    }
    var (flags, n, pos) := counts.value;
    var identify := ReadColumns(data, pos, HasIdentify(typ), n);
    if identify.None? {
      return None;
    }
    var present := ReadColumns(data, identify.value.1, HasData(typ), n);
    if present.None? {
      return None;
    }
    return Some(Head(Rows(flags, identify.value.0, present.value.0, []), n, present.value.1));
  }

  /**
   `Rows`, on the event's bytes after the header; `shortHeader` when the format gives the event a post-header of six
   bytes. `None` stands for its errors, for reading past the end, and for bytes left over when no column is present.
   */
  method ReadRows(data: seq<byte>, typ: byte, shortHeader: bool, tm: TableMap, ghost tableId: nat, ghost rows: Rows)
    returns (r: Option<Rows>)
    ensures IsV2(typ) && !shortHeader && GoodRows(typ, rows, tm) && data == EventBytes(typ, tableId, rows) ==>
              r == Some(if Present(typ, rows) then rows else rows.(rows := []))
  {
    ghost var good := IsV2(typ) && !shortHeader && GoodRows(typ, rows, tm) && data == EventBytes(typ, tableId, rows);
    if good {
      AtParts(HeadBytes(typ, tableId, rows), RowsBytes(typ, rows.rows), []);
      assert HeadBytes(typ, tableId, rows) + (RowsBytes(typ, rows.rows) + []) == data;
    }
    var head := ReadHead(data, typ, shortHeader, good, tableId, rows);
    if head.None? {
      return None;
    }
    var Head(result, n, pos) := head.value;
    var numIdentify, numData := 0, 0;
    if HasIdentify(typ) {
      numIdentify := BitCount(result.identifyColumns);
    }
    if HasData(typ) {
      numData := BitCount(result.dataColumns);
    }
    r := ReadRowLoop(data, pos, typ, result, numIdentify, numData, tm, n, good, rows);
  }

  /** The row loop of `Rows`. */
  method ReadRowLoop(data: seq<byte>, start: nat, typ: byte, head: Rows, numIdentify: nat, numData: nat, tm: TableMap,
                     n: nat,
                     ghost good: bool, ghost rows: Rows) returns (r: Option<Rows>)
    requires GoodColumns(HasIdentify(typ), head.identifyColumns, n) && GoodColumns(HasData(typ), head.dataColumns, n)
    requires numIdentify == if HasIdentify(typ) then Ones(head.identifyColumns.data, n) else 0
    requires numData == if HasData(typ) then Ones(head.dataColumns.data, n) else 0
    requires start <= |data|
    requires good ==> GoodRows(typ, rows, tm) && n == RowLength(typ, rows) && head == rows.(rows := [])
    requires good ==> Left(data, start, typ, rows.rows)
    ensures good ==> r == Some(if Present(typ, rows) then rows else rows.(rows := []))
  {
    if good && !Present(typ, rows) {
      EmptyRows(typ, rows, rows.rows, tm, n);
    }
    if numIdentify == 0 && numData == 0 {
      return if start < |data| then None else Some(head);
    }
    assert good ==> Present(typ, rows) && rows.rows[0..] == rows.rows;
    hide GoodRow, RowBytes, Present, At, Left;
    var pos, read := start, [];
    ghost var i, more := 0, rows.rows;
    while pos < |data|
      invariant pos <= |data|
      invariant good ==> i <= |rows.rows| && read == rows.rows[..i] && more == rows.rows[i..]
      invariant good ==> Left(data, pos, typ, more)
    {
      ghost var row := Row(NO_BITMAP, NO_BITMAP, [], []);
      if good {
        LeftNext(data, pos, typ, more);
        row := more[0];
        ShorterSuffix(rows.rows, i);
        LongerPrefix(rows.rows, i);
        i, more := i + 1, more[1..];
      }
      var next := ReadRow(data, pos, typ, head, numIdentify, numData, tm, n, good, row);
      if next.None? {
        return None;
      }
      read := read + [next.value.0];
      pos := next.value.1;
    }
    if good {
      NoRowsLeft(data, pos, typ, rows, more, tm, n);
      WholePrefix(rows.rows);
    }
    return Some(head.(rows := read));
  }

  /** `more` is what is left of the event at `pos`. */
  ghost predicate Left(data: seq<byte>, pos: nat, typ: byte, more: seq<Row>) {
    pos <= |data| && data[pos..] == RowsBytes(typ, more)
  }

  lemma LeftNext(data: seq<byte>, pos: nat, typ: byte, more: seq<Row>)
    requires Left(data, pos, typ, more) && pos < |data|
    ensures more != [] && At(data, pos, RowBytes(typ, more[0]))
    ensures Left(data, pos + |RowBytes(typ, more[0])|, typ, more[1..])
  {
    assert data[pos..] != [];
    RestSplit(data, pos, RowBytes(typ, more[0]), RowsBytes(typ, more[1..]));
  }

  lemma NoRowsLeft(data: seq<byte>, pos: nat, typ: byte, rows: Rows, more: seq<Row>, tm: TableMap, n: nat)
    requires GoodColumns(HasIdentify(typ), rows.identifyColumns, n) && GoodColumns(HasData(typ), rows.dataColumns, n)
    requires Present(typ, rows) && forall k :: 0 <= k < |more| ==> GoodRow(typ, rows, more[k], tm, n)
    requires Left(data, pos, typ, more) && pos == |data|
    ensures more == []
  {
    if more != [] {
      SomeRow(typ, rows, more[0], tm, n);
    }
  }

  // ----- building events -----

  /** The images and bitmaps an event type does not have are empty. */
  predicate Unmixed(typ: byte, rows: Rows) {
    && (HasIdentify(typ) || rows.identifyColumns == NO_BITMAP) && (HasData(typ) || rows.dataColumns == NO_BITMAP)
    && forall k :: 0 <= k < |rows.rows| ==> UnmixedRow(typ, rows.rows[k])
  }

  predicate UnmixedRow(typ: byte, row: Row) {
    && (HasIdentify(typ) || (row.nullIdentify == NO_BITMAP && row.identify == []))
    && (HasData(typ) || (row.nullData == NO_BITMAP && row.data == []))
  }

  lemma GoodIsUnmixed(typ: byte, rows: Rows, tm: TableMap)
    requires GoodRows(typ, rows, tm)
    ensures Unmixed(typ, rows)
  {
    hide GoodImage;
  }

  /** The length pass of `newRowsEvent`. */
  method EventLength(typ: byte, tableId: nat, rows: Rows) returns (length: nat)
    requires RowLength(typ, rows) < 0x8000_0000_0000_0000 && Unmixed(typ, rows)
    ensures length == |EventBytes(typ, tableId, rows)|
  {
    length := 6 + 2 + 2 + LenEncIntSize(RowLength(typ, rows)) + |rows.identifyColumns.data| + |rows.dataColumns.data|;
    assert length == |HeadBytes(typ, tableId, rows)|;
    assert rows.rows[0..] == rows.rows;
    ghost var more := rows.rows;
    for i := 0 to |rows.rows|
      invariant more == rows.rows[i..]
      invariant length + |RowsBytes(typ, more)| == |EventBytes(typ, tableId, rows)|
    {
      ShorterSuffix(rows.rows, i);
      var row := rows.rows[i];
      assert UnmixedRow(typ, row);
      length := length + |row.nullIdentify.data| + |row.nullData.data| + |row.identify| + |row.data|;
      more := more[1..];
    }
  }

  /** One row of the writing pass of `newRowsEvent`. */
  method PutRow(data: array<byte>, start: nat, typ: byte, row: Row, ghost payload: seq<byte>) returns (pos: nat)
    requires Filled(data[..], 0, start, payload) && start + |RowBytes(typ, row)| <= data.Length
    modifies data
    ensures Filled(data[..], 0, pos, payload + RowBytes(typ, row))
  {
    pos := start;
    ghost var done := payload;
    if HasIdentify(typ) {
      pos := PutBytes(data, 0, pos, row.nullIdentify.data, payload);
      pos := PutBytes(data, 0, pos, row.identify, payload + row.nullIdentify.data);
      Assoc(payload, row.nullIdentify.data, row.identify);
      done := payload + (row.nullIdentify.data + row.identify);
    }
    if HasData(typ) {
      pos := PutBytes(data, 0, pos, row.nullData.data, done);
      pos := PutBytes(data, 0, pos, row.data, done + row.nullData.data);
      Assoc(done, row.nullData.data, row.data);
    }
    assert payload + RowBytes(typ, row) == done + if HasData(typ) then row.nullData.data + row.data else [];
    assert !HasData(typ) ==> done + [] == done;
  }

  /** What `newRowsEvent` writes before the rows. */
  method PutHead(data: array<byte>, typ: byte, tableId: nat, rows: Rows) returns (pos: nat)
    requires RowLength(typ, rows) < 0x8000_0000_0000_0000
    requires |HeadBytes(typ, tableId, rows)| <= data.Length
    modifies data
    ensures Filled(data[..], 0, pos, HeadBytes(typ, tableId, rows))
  {
    ghost var id, flags, extra := PutLe(tableId, 6), PutLe(rows.flags, 2), PutLe(2, 2);
    ghost var count := LenEncInt(RowLength(typ, rows));
    ghost var columns := ColumnsBytes(typ, rows);
    assert [] + id == id && Filled(data[..], 0, 0, []);
    AssocFive(id, flags, extra, count, columns);
    hide PutLe, LenEncInt, Filled, ColumnsBytes;
    pos := PutFixed(data, 0, 0, tableId, 6, []);
    pos := PutFixed(data, 0, pos, rows.flags, 2, id);
    pos := PutFixed(data, 0, pos, 2, 2, id + flags);
    pos := PutInt(data, 0, pos, RowLength(typ, rows), id + flags + extra);
    pos := PutColumns(data, pos, typ, rows, id + flags + extra + count);
  }

  method PutColumns(data: array<byte>, start: nat, typ: byte, rows: Rows, ghost payload: seq<byte>) returns (pos: nat)
    requires Filled(data[..], 0, start, payload) && start + |ColumnsBytes(typ, rows)| <= data.Length
    modifies data
    ensures Filled(data[..], 0, pos, payload + ColumnsBytes(typ, rows))
  {
    pos := start;
    ghost var done := payload;
    if HasIdentify(typ) {
      pos := PutBytes(data, 0, pos, rows.identifyColumns.data, payload);
      done := payload + rows.identifyColumns.data;
    }
    assert payload + ColumnsBytes(typ, rows) == done + if HasData(typ) then rows.dataColumns.data else [];
    if HasData(typ) {
      pos := PutBytes(data, 0, pos, rows.dataColumns.data, done);
    } else {
      assert done + [] == done;
    }
  }

  /** `newRowsEvent`, up to `Packetize` */
  method BuildRows(typ: byte, tableId: nat, rows: Rows) returns (data: array<byte>)
    requires RowLength(typ, rows) < 0x8000_0000_0000_0000 && Unmixed(typ, rows)
    ensures fresh(data) && data[..] == EventBytes(typ, tableId, rows)
  {
    hide HeadBytes, RowBytes;
    var length := EventLength(typ, tableId, rows);
    data := new byte[length];
    var pos := PutHead(data, typ, tableId, rows);
    ghost var done, more := HeadBytes(typ, tableId, rows), rows.rows;
    assert rows.rows[0..] == rows.rows;
    for i := 0 to |rows.rows|
      invariant more == rows.rows[i..] && Filled(data[..], 0, pos, done)
      invariant done + RowsBytes(typ, more) == EventBytes(typ, tableId, rows)
    {
      ShorterSuffix(rows.rows, i);
      Assoc(done, RowBytes(typ, more[0]), RowsBytes(typ, more[1..]));
      pos := PutRow(data, pos, typ, rows.rows[i], done);
      done, more := done + RowBytes(typ, more[0]), more[1..];
    }
    assert done + [] == done;
    FilledUp(data[..], 0, pos, done);
    assert data[..] == data[..][0..];
  }
}
