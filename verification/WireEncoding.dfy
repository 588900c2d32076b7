/** The data encoding of the MySQL wire protocol: fixed-width and length-encoded integers and strings. */
module WireEncoding {
  import opened Bytes
  import opened Options

  /** `field` is found in `data` at `pos`. */
  ghost predicate At(data: seq<byte>, pos: int, field: seq<byte>) {
    0 <= pos && pos + |field| <= |data| && data[pos..pos + |field|] == field
  }

  lemma AtSplit(data: seq<byte>, pos: int, a: seq<byte>, b: seq<byte>)
    requires At(data, pos, a + b)
    ensures At(data, pos, a) && At(data, pos + |a|, b)
  {
    var w := data[pos..pos + |a + b|];
    assert w[..|a|] == a && w[|a|..] == b;
    assert data[pos..pos + |a|] == w[..|a|];
    assert data[pos + |a|..pos + |a| + |b|] == w[|a|..];
  }

  lemma RestSplit(data: seq<byte>, pos: nat, a: seq<byte>, b: seq<byte>)
    requires pos <= |data| && data[pos..] == a + b
    ensures At(data, pos, a) && data[pos + |a|..] == b && (a != [] ==> data[pos] == a[0])
  {
    assert data[pos..pos + |a|] == data[pos..][..|a|] == a;
    assert data[pos + |a|..] == data[pos..][|a|..] == b;
  }

  lemma AtParts(a: seq<byte>, b: seq<byte>, c: seq<byte>)
    ensures At(a + (b + c), 0, a) && At(a + (b + c), |a|, b) && At(a + (b + c), |a| + |b|, c)
  {
    var data := a + (b + c);
    assert data[0..|a|] == a && data[|a|..] == b + c;
    RestSplit(data, |a|, b, c);
    assert data[|a| + |b|..|a| + |b| + |c|] == data[|a| + |b|..];
  }

  /** `lenEncIntSize` */
  function LenEncIntSize(i: uint64): (r: nat) {
    if i < 251 then 1 else if i < 0x1_0000 then 3 else if i < 0x100_0000 then 4 else 9
  }

  /** The bytes `writeLenEncInt` writes. */
  function LenEncInt(i: uint64): (r: seq<byte>)
    ensures |r| == LenEncIntSize(i)
  {
    if i < 251 then [i]
    else if i < 0x1_0000 then [0xfc] + PutLe(i, 2)
    else if i < 0x100_0000 then [0xfd] + PutLe(i, 3)
    else [0xfe] + PutLe(i, 8)
  }

  /** `readLenEncInt`: the number and the position after it. */
  function ReadLenEncInt(data: seq<byte>, pos: nat): (r: Option<(uint64, nat)>)
    ensures r.Some? ==> pos < r.value.1 <= |data|
  {
    PowersOf256();
    if pos >= |data| then None
    else if data[pos] == 0xfc then
      if pos + 2 >= |data| then None else Some((GetLe(data[pos + 1..pos + 3]), pos + 3))
    else if data[pos] == 0xfd then
      if pos + 3 >= |data| then None else Some((GetLe(data[pos + 1..pos + 4]), pos + 4))
    else if data[pos] == 0xfe then
      if pos + 8 >= |data| then None else Some((GetLe(data[pos + 1..pos + 9]), pos + 9))
    else Some((data[pos], pos + 1))
  }

  /** Length-encoded integers read back wherever they stand. */
  lemma LenEncIntRoundTrip(data: seq<byte>, pos: nat, i: uint64)
    requires At(data, pos, LenEncInt(i))
    ensures ReadLenEncInt(data, pos) == Some((i, pos + LenEncIntSize(i)))
  {
    PowersOf256();
    var field := LenEncInt(i);
    assert data[pos] == data[pos..pos + |field|][0] == field[0];
    var w := |field| - 1;
    if w > 0 {
      assert data[pos + 1..pos + 1 + w] == data[pos..pos + |field|][1..] == field[1..] == PutLe(i, w);
      LeRoundTrip(i, w);
    }
  }

  /** The first byte tells a length from NULL and from an error packet, and 0xfe announces at least 2^24 bytes. */
  lemma LenEncIntFirst(i: uint64)
    ensures var b := LenEncInt(i)[0];
            b != 0xfb && b != 0xff && (b == 0xfe <==> i >= 0x100_0000) && (b == 0 <==> i == 0)
  {
  }

  function LenEncString(s: seq<byte>): (r: seq<byte>)
    requires |s| < 0x1_0000_0000_0000_0000
  {
    LenEncInt(|s|) + s
  }

  /** `lenEncStringSize` */
  function LenEncStringSize(s: seq<byte>): (r: nat)
    requires |s| < 0x1_0000_0000_0000_0000
    ensures r == |LenEncString(s)|
  {
    LenEncIntSize(|s|) + |s|
  }

  /** `readLenEncString` and its variants. */
  function ReadLenEncString(data: seq<byte>, pos: nat): (r: Option<(seq<byte>, nat)>)
    ensures r.Some? ==> pos < r.value.1 <= |data|
  {
    match ReadLenEncInt(data, pos)
    case None => None
    case Some((size, next)) =>
      if next + size > |data| then None else Some((data[next..next + size], next + size))
  }

  lemma LenEncStringRoundTrip(data: seq<byte>, pos: nat, s: seq<byte>)
    requires |s| < 0x1_0000_0000_0000_0000 && At(data, pos, LenEncString(s))
    ensures ReadLenEncString(data, pos) == Some((s, pos + LenEncIntSize(|s|) + |s|))
  {
    hide LenEncInt, ReadLenEncInt;
    AtSplit(data, pos, LenEncInt(|s|), s);
    LenEncIntRoundTrip(data, pos, |s|);
    var next := pos + LenEncIntSize(|s|);
    assert ReadLenEncInt(data, pos) == Some((|s|, next));
    assert data[next..next + |s|] == s;
  }

  /** `readUint16` and `readUint32`, by width. */
  function ReadFixed(data: seq<byte>, pos: nat, w: nat): (r: Option<(nat, nat)>)
    ensures r.Some? ==> r.value.0 < Pow256(w) && r.value.1 == pos + w <= |data|
  {
    if pos + w > |data| then None else Some((GetLe(data[pos..pos + w]), pos + w))
  }

  lemma FixedRoundTrip(data: seq<byte>, pos: nat, v: nat, w: nat)
    requires v < Pow256(w) && At(data, pos, PutLe(v, w))
    ensures ReadFixed(data, pos, w) == Some((v, pos + w))
  {
    LeRoundTrip(v, w);
  }

  // ----- writers -----

  /** What a write of `field` at `pos` makes of a buffer. */
  ghost function Written(buf: seq<byte>, pos: nat, field: seq<byte>): (r: seq<byte>)
    requires pos + |field| <= |buf|
    ensures |r| == |buf| && At(r, pos, field) && r[..pos] == buf[..pos]
  {
    buf[..pos] + field + buf[pos + |field|..]
  }

  lemma WrittenTwice(buf: seq<byte>, pos: nat, a: seq<byte>, b: seq<byte>)
    requires pos + |a| + |b| <= |buf|
    ensures Written(Written(buf, pos, a), pos + |a|, b) == Written(buf, pos, a + b)
  {
  }

  /** `data[pos+k] = byte(v >> 8*k)` for `k` below `w`. */
  method WriteFixed(data: array<byte>, pos: nat, v: nat, w: nat) returns (next: nat)
    requires pos + w <= data.Length
    modifies data
    ensures next == pos + w
    ensures data[..] == Written(old(data[..]), pos, PutLe(v, w))
    decreases w
  {
    next := pos;
    if w > 0 {
      ghost var was := data[..];
      data[pos] := v % 256;
      assert data[..] == Written(was, pos, [v % 256]);
      WrittenTwice(was, pos, [v % 256], PutLe(v / 256, w - 1));
      next := WriteFixed(data, pos + 1, v / 256, w - 1);
    }
  }

  /** `writeLenEncInt` */
  method WriteLenEncInt(data: array<byte>, pos: nat, i: uint64) returns (next: nat)
    requires pos + LenEncIntSize(i) <= data.Length
    modifies data
    ensures next == pos + LenEncIntSize(i)
    ensures data[..] == Written(old(data[..]), pos, LenEncInt(i))
  {
    ghost var was := data[..];
    if i < 251 {
      data[pos] := i;
      next := pos + 1;
    } else {
      var (mark, w) := if i < 0x1_0000 then (0xfc, 2) else if i < 0x100_0000 then (0xfd, 3) else (0xfe, 8);
      data[pos] := mark;
      assert data[..] == Written(was, pos, [mark]);
      WrittenTwice(was, pos, [mark], PutLe(i, w));
      next := WriteFixed(data, pos + 1, i, w);
    }
  }

  /** `copy(data[pos:], s)` of a string that fits. */
  method WriteBytes(data: array<byte>, pos: nat, s: seq<byte>) returns (next: nat)
    requires pos + |s| <= data.Length
    modifies data
    ensures next == pos + |s|
    ensures data[..] == Written(old(data[..]), pos, s)
  {
    forall k | 0 <= k < |s| {
      data[pos + k] := s[k];
    }
    next := pos + |s|;
  }

  // ----- writing at an advancing position -----

  predicate Sized(s: seq<byte>) {
    |s| < 0x1_0000_0000_0000_0000
  }

  /** The buffer holds `payload` from `start` up to `pos`. */
  ghost predicate Filled(buf: seq<byte>, start: nat, pos: nat, payload: seq<byte>) {
    pos == start + |payload| <= |buf| && buf[start..pos] == payload
  }

  lemma FillMore(buf: seq<byte>, start: nat, pos: nat, payload: seq<byte>, field: seq<byte>)
    requires Filled(buf, start, pos, payload) && pos + |field| <= |buf|
    ensures Filled(Written(buf, pos, field), start, pos + |field|, payload + field)
  {
    var w := Written(buf, pos, field);
    assert w[start..pos] == w[..pos][start..] == buf[..pos][start..] == payload;
    assert w[start..pos + |field|] == w[start..pos] + w[pos..pos + |field|];
  }

  lemma FilledUp(buf: seq<byte>, start: nat, pos: nat, payload: seq<byte>)
    requires Filled(buf, start, pos, payload) && |buf| == start + |payload|
    ensures buf[start..] == payload
  {
  }

  /** `writeByte`, `writeUint16` and `writeUint32`, by width. */
  method PutFixed(data: array<byte>, ghost start: nat, pos: nat, v: nat, w: nat, ghost payload: seq<byte>)
    returns (next: nat)
    requires Filled(data[..], start, pos, payload) && pos + w <= data.Length
    modifies data
    ensures next == pos + w && Filled(data[..], start, next, payload + PutLe(v, w))
  {
    FillMore(data[..], start, pos, payload, PutLe(v, w));
    next := WriteFixed(data, pos, v, w);
  }

  method PutInt(data: array<byte>, ghost start: nat, pos: nat, i: uint64, ghost payload: seq<byte>) returns (next: nat)
    requires Filled(data[..], start, pos, payload) && pos + LenEncIntSize(i) <= data.Length
    modifies data
    ensures next == pos + LenEncIntSize(i) && Filled(data[..], start, next, payload + LenEncInt(i))
  {
    FillMore(data[..], start, pos, payload, LenEncInt(i));
    next := WriteLenEncInt(data, pos, i);
  }

  /** `writeEOFString` */
  method PutBytes(data: array<byte>, ghost start: nat, pos: nat, s: seq<byte>, ghost payload: seq<byte>)
    returns (next: nat)
    requires Filled(data[..], start, pos, payload) && pos + |s| <= data.Length
    modifies data
    ensures next == pos + |s| && Filled(data[..], start, next, payload + s)
  {
    FillMore(data[..], start, pos, payload, s);
    next := WriteBytes(data, pos, s);
  }

  /** `writeLenEncString` */
  method PutString(data: array<byte>, ghost start: nat, pos: nat, s: seq<byte>, ghost payload: seq<byte>)
    returns (next: nat)
    requires Sized(s) && Filled(data[..], start, pos, payload) && pos + |LenEncString(s)| <= data.Length
    modifies data
    ensures next == pos + |LenEncString(s)| && Filled(data[..], start, next, payload + LenEncString(s))
  {
    next := PutInt(data, start, pos, |s|, payload);
    next := PutBytes(data, start, next, s, payload + LenEncInt(|s|));
    Assoc(payload, LenEncInt(|s|), s);
  }
}
