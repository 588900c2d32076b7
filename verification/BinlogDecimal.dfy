/** NEWDECIMAL cells: packed groups of nine decimal digits, and the text made of them. */
module BinlogDecimal {
  import opened Bytes
  import opened Options
  import opened Decimals
  import opened BinlogCells

  // ----- what the text means -----

  /** A number with a fraction: `unscaled / 10^scale`, and whether it carries a minus sign. */
  datatype Numeral = Numeral(negative: bool, unscaled: nat, scale: nat)

  /** The digits before and after the point, which may be missing, with their number; there must be a digit. */
  function ParseUnsigned(s: string): (r: Option<(nat, nat)>) {
    var i := IndexOf(s, '.');
    var frac := if i < |s| then s[i + 1..] else "";
    ParseDigits(s[..i] + frac, |frac|)
  }

  function ParseDigits(digits: string, scale: nat): (r: Option<(nat, nat)>) {
    if digits == "" || !AllDigits(digits) then None else Some((Value(digits), scale))
  }

  /** Reads an optional minus sign and an unsigned number. */
  function ParseNumeral(text: string): (r: Option<Numeral>) {
    var negative := text != "" && text[0] == '-';
    match ParseUnsigned(if negative then text[1..] else text)
    case None => None
    case Some((unscaled, scale)) => Some(Numeral(negative, unscaled, scale))
  }

  function SignText(negative: bool): (r: string) {
    if negative then "-" else ""
  }

  /** Digits before and after the point; no point where there is no fraction. */
  function UnsignedText(whole: string, frac: string): (r: string) {
    whole + if frac == "" then "" else "." + frac
  }

  function NumeralText(negative: bool, whole: string, frac: string): (r: string) {
    SignText(negative) + UnsignedText(whole, frac)
  }

  lemma UnsignedReads(whole: string, frac: string)
    requires AllDigits(whole)
    ensures ParseUnsigned(UnsignedText(whole, frac)) == ParseDigits(whole + frac, |frac|)
  {
    assert '.' !in whole;
    CutAt(whole, '.', frac);
    hide ParseDigits, AllDigits, IndexOf;
    var s := UnsignedText(whole, frac);
    if frac == "" {
      assert s == whole && whole + "" == whole;
    } else {
      assert s == whole + ['.'] + frac;
    }
  }

  lemma NoMinus(whole: string, frac: string)
    requires AllDigits(whole)
    ensures var s := UnsignedText(whole, frac);
            s == "" || s[0] != '-'
  {
  }

  lemma NumeralReads(negative: bool, whole: string, frac: string)
    requires AllDigits(whole) && AllDigits(frac)
    ensures AllDigits(whole + frac)
    ensures ParseNumeral(NumeralText(negative, whole, frac))
         == if whole + frac == "" then None else Some(Numeral(negative, Value(whole + frac), |frac|))
  {
    UnsignedReads(whole, frac);
    ValueConcat(whole, frac);
    NoMinus(whole, frac);
    hide ParseUnsigned, UnsignedText, AllDigits, Value;
    SignStrips(negative, UnsignedText(whole, frac));
  }

  lemma SignStrips(negative: bool, s: string)
    requires s == "" || s[0] != '-'
    ensures var text := SignText(negative) + s;
            && (text != "" && text[0] == '-' <==> negative)
            && (if negative then text[1..] else text) == s
  {
  }

  /** Leading zeros do not change a number. */
  function TrimZeros(s: string): (r: string) {
    if s != "" && s[0] == '0' then TrimZeros(s[1..]) else s
  }

  lemma {:induction false} TrimKeepsValue(s: string, t: string)
    requires AllDigits(s) && AllDigits(t)
    ensures AllDigits(TrimZeros(s)) && AllDigits(s + t) && AllDigits(TrimZeros(s) + t)
    ensures Value(TrimZeros(s) + t) == Value(s + t)
  {
    if s == "" || s[0] != '0' {
    } else {
      TrimKeepsValue(s[1..], t);
      ValueConcat("0", s[1..] + t);
      assert "0" + (s[1..] + t) == s + t;
      assert Value("0") == 0;
    }
  }

  /** Trimming stops at the point. */
  lemma {:induction false} TrimWhole(whole: string, frac: string)
    ensures TrimZeros(whole + ("." + frac)) == TrimZeros(whole) + ("." + frac)
  {
    var s := whole + ("." + frac);
    if whole != "" && whole[0] == '0' {
      TrimWhole(whole[1..], frac);
      assert s[1..] == whole[1..] + ("." + frac);
    } else if whole == "" {
      assert s == "." + frac;
    }
  }

  // ----- the packed form -----

  /** The `i`-th group of four bytes from `start` on. */
  function Group(d: seq<byte>, start: nat, i: nat): (r: nat)
    requires start + 4 * i + 4 <= |d|
  {
    GetBe(d[start + 4 * i..start + 4 * i + 4])
  }

  /** The leading bytes and the `k` groups after them, as one number in base 10^9. */
  function Packed(d: seq<byte>, start: nat, k: nat): (r: nat)
    requires start + 4 * k <= |d|
  {
    if k == 0 then GetBe(d[..start]) else Shifted(Packed(d, start, k - 1), 9) + Group(d, start, k - 1)
  }

  /**
   How a decimal is laid out: `x` leading digits and `m` groups of nine before the point, `n` groups of nine and `w`
   digits after it.
   */
  datatype Shape = Shape(x: nat, m: nat, n: nat, w: nat) {
    predicate Valid() {
      x < 9 && w < 9 && x + m + n + w > 0
    }

    /** The bytes before the groups. */
    function Start(): (r: nat)
      requires Valid()
    {
      Dig2Bytes(x)
    }

    /** The bytes before the digits after the last group. */
    function End(): (r: nat)
      requires Valid()
    {
      Start() + 4 * (m + n)
    }

    function Length(): (r: nat)
      requires Valid()
      ensures 0 < r && End() <= r
    {
      End() + Dig2Bytes(w)
    }

    function Scale(): (r: nat) {
      9 * n + w
    }
  }

  /** The layout of `precision` digits, `scale` of them after the point. */
  function ShapeOf(precision: nat, scale: nat): (h: Shape)
    requires 1 <= precision && scale <= precision
    ensures h.Valid() && h.Scale() == scale && h.Length() == DecimalLength(precision, scale)
    ensures h.x + 9 * h.m == precision - scale
  {
    Shape((precision - scale) % 9, (precision - scale) / 9, scale / 9, scale % 9)
  }

  /** Every group is below the power of ten its digits allow. */
  ghost predicate InRange(d: seq<byte>, h: Shape)
    requires h.Valid() && |d| == h.Length()
  {
    && GetBe(d[..h.Start()]) < Pow10(h.x)
    && GroupsInRange(d, h.Start(), h.m + h.n)
    && GetBe(d[h.End()..]) < Pow10(h.w)
  }

  /** The digits of all the groups as one number. */
  ghost function Unscaled(d: seq<byte>, h: Shape): (r: nat)
    requires h.Valid() && |d| == h.Length()
  {
    Shifted(Packed(d, h.Start(), h.m + h.n), h.w) + GetBe(d[h.End()..])
  }

  /** The top bit of the first byte is inverted, and so is every byte of a negative number. */
  predicate IsNegative(d: seq<byte>)
    requires d != []
  {
    d[0] < 0x80
  }

  function FlipTop(b: byte): (r: byte) {
    if b < 0x80 then b + 0x80 else b - 0x80
  }

  function Plain(d: seq<byte>): (r: seq<byte>)
    requires d != []
    ensures |r| == |d|
  {
    seq(|d|, i requires 0 <= i < |d| =>
      var b := if i == 0 then FlipTop(d[i]) else d[i];
      if IsNegative(d) then 255 - b else b)
  }

  /** A copy of the cell with the inversions undone. */
  method Unpack(cell: seq<byte>) returns (negative: bool, d: seq<byte>)
    requires cell != []
    ensures negative == IsNegative(cell) && d == Plain(cell)
  {
    var a := new byte[|cell|](i requires 0 <= i < |cell| => cell[i]);
    negative := a[0] < 0x80;
    a[0] := FlipTop(a[0]);
    if negative {
      for i := 0 to a.Length
        invariant forall k :: 0 <= k < i ==> a[k] == 255 - if k == 0 then FlipTop(cell[k]) else cell[k]
        invariant forall k :: i <= k < a.Length ==> a[k] == if k == 0 then FlipTop(cell[k]) else cell[k]
      {
        a[i] := 255 - a[i];
      }
    }
    d := a[..];
  }

  // ----- digits -----

  /** `%09d` of `count` groups. */
  function GroupsText(d: seq<byte>, start: nat, count: nat): (r: string)
    requires start + 4 * count <= |d|
    ensures AllDigits(r)
  {
    if count == 0 then "" else GroupsText(d, start, count - 1) + Padded(Group(d, start, count - 1), 9)
  }

  function LeadText(v: nat): (r: string)
    ensures AllDigits(r)
  {
    if v > 0 then Format(v) else ""
  }

  ghost predicate GroupsInRange(d: seq<byte>, start: nat, count: nat)
    requires start + 4 * count <= |d|
  {
    forall i :: 0 <= i < count ==> Group(d, start, i) < Pow10(9)
  }

  /** The groups' digits spell the packed number, nine digits a group. */
  lemma {:induction false} GroupsValue(d: seq<byte>, start: nat, count: nat)
    requires start + 4 * count <= |d| && GroupsInRange(d, start, count)
    ensures AllDigits(LeadText(GetBe(d[..start])) + GroupsText(d, start, count))
    ensures Value(LeadText(GetBe(d[..start])) + GroupsText(d, start, count)) == Packed(d, start, count)
    ensures |GroupsText(d, start, count)| == 9 * count
  {
    hide Group, LeadText, AllDigits, Value, Padded, Shifted, Pow10, GetBe;
    var lead := LeadText(GetBe(d[..start]));
    if count == 0 {
      assert lead + "" == lead;
      LeadValue(GetBe(d[..start]));
    } else {
      GroupsValue(d, start, count - 1);
      var before, g := GroupsText(d, start, count - 1), Group(d, start, count - 1);
      GroupAppended(lead + before, g);
      Assoc(lead, before, Padded(g, 9));
    }
  }

  lemma LeadValue(v: nat)
    ensures Value(LeadText(v)) == v
  {
    FormatValue(v);
  }

  lemma GroupAppended(s: string, g: nat)
    requires AllDigits(s) && g < Pow10(9)
    ensures |Padded(g, 9)| == 9 && AllDigits(s + Padded(g, 9)) && Value(s + Padded(g, 9)) == Shifted(Value(s), 9) + g
  {
    PaddedValue(g, 9);
    PaddedLength(g, 9);
    hide Padded;
    ValueConcat(s, Padded(g, 9));
  }

  /** Groups side by side. */
  lemma {:induction false} GroupsConcat(d: seq<byte>, start: nat, m: nat, n: nat)
    requires start + 4 * (m + n) <= |d|
    ensures GroupsText(d, start, m + n) == GroupsText(d, start, m) + GroupsText(d, start + 4 * m, n)
  {
    hide Padded, AllDigits;
    if n == 0 {
      assert GroupsText(d, start, m) + "" == GroupsText(d, start, m);
    } else {
      SameGroup(d, start, m, n - 1);
      hide Group;
      GroupsConcat(d, start, m, n - 1);
      Assoc(GroupsText(d, start, m), GroupsText(d, start + 4 * m, n - 1), Padded(Group(d, start, m + n - 1), 9));
    }
  }

  lemma SameGroup(d: seq<byte>, start: nat, m: nat, i: nat)
    requires start + 4 * (m + i) + 4 <= |d|
    ensures Group(d, start, m + i) == Group(d, start + 4 * m, i)
  {
    assert start + 4 * (m + i) == start + 4 * m + 4 * i;
  }

  method PutGroups(txt: string, d: seq<byte>, start: nat, count: nat) returns (r: string)
    requires start + 4 * count <= |d|
    ensures r == txt + GroupsText(d, start, count)
  {
    hide Padded, GetBe, AllDigits;
    r := txt;
    var pos := start;
    assert txt + "" == txt;
    for i := 0 to count
      invariant pos == start + 4 * i
      invariant r == txt + GroupsText(d, start, i)
    {
      var val := GetBe(d[pos..pos + 4]);
      Assoc(txt, GroupsText(d, start, i), Padded(val, 9));
      r := r + Padded(val, 9);
      pos := pos + 4;
    }
  }

  // ----- decoding -----

  /** The `w` digits that do not fill a group. */
  function RestText(v: nat, w: nat): (r: string)
    ensures AllDigits(r)
  {
    if w == 0 then "" else Padded(v, w)
  }

  lemma RestAppended(s: string, v: nat, w: nat)
    requires AllDigits(s) && v < Pow10(w)
    ensures |RestText(v, w)| == w
    ensures AllDigits(s + RestText(v, w)) && Value(s + RestText(v, w)) == Shifted(Value(s), w) + v
  {
    if w == 0 {
      assert s + "" == s;
    } else {
      PaddedValue(v, w);
      PaddedLength(v, w);
    }
    ValueConcat(s, RestText(v, w));
  }

  /** The digits before the point: the leading bytes and `m` groups. */
  function WholeText(d: seq<byte>, start: nat, m: nat): (r: string)
    requires start + 4 * m <= |d|
    ensures AllDigits(r)
  {
    LeadText(GetBe(d[..start])) + GroupsText(d, start, m)
  }

  /** The digits after the point: `n` groups from `start` on and `w` digits more. */
  function FracText(d: seq<byte>, start: nat, n: nat, w: nat): (r: string)
    requires start + 4 * n <= |d|
    ensures AllDigits(r)
  {
    GroupsText(d, start, n) + RestText(GetBe(d[start + 4 * n..]), w)
  }

  lemma Regroup(a: string, b: string, c: string, d: string)
    ensures (a + b) + (c + d) == (a + (b + c)) + d
  {
  }

  /** The digits on both sides of the point spell one number, and nine times `n` and `w` of them come after it. */
  lemma DigitsValue(d: seq<byte>, start: nat, m: nat, n: nat, w: nat)
    requires start + 4 * (m + n) <= |d| && GroupsInRange(d, start, m + n)
    requires GetBe(d[start + 4 * (m + n)..]) < Pow10(w)
    ensures var whole, frac := WholeText(d, start, m), FracText(d, start + 4 * m, n, w);
            && AllDigits(whole + frac) && |frac| == 9 * n + w
            && Value(whole + frac) == Shifted(Packed(d, start, m + n), w) + GetBe(d[start + 4 * (m + n)..])
  {
    hide GetBe, Group, GroupsText, LeadText, RestText, Packed, Value, AllDigits, Shifted, Pow10, GroupsInRange;
    var end := start + 4 * m + 4 * n;
    assert end == start + 4 * (m + n);
    GroupsConcat(d, start, m, n);
    GroupsValue(d, start, m + n);
    GroupsAfter(d, start, m, n);
    Joined(LeadText(GetBe(d[..start])), GroupsText(d, start, m), GroupsText(d, start + 4 * m, n), GetBe(d[end..]), w);
  }

  lemma Joined(lead: string, a: string, b: string, v: nat, w: nat)
    requires AllDigits(lead + (a + b)) && v < Pow10(w)
    ensures var s := (lead + a) + (b + RestText(v, w));
            AllDigits(s) && Value(s) == Shifted(Value(lead + (a + b)), w) + v && |RestText(v, w)| == w
  {
    hide *;
    Regroup(lead, a, b, RestText(v, w));
    RestAppended(lead + (a + b), v, w);
  }

  lemma FewerGroups(d: seq<byte>, start: nat, m: nat, n: nat)
    requires start + 4 * (m + n) <= |d| && GroupsInRange(d, start, m + n)
    ensures GroupsInRange(d, start, m)
  {
  }

  lemma GroupsAfter(d: seq<byte>, start: nat, m: nat, n: nat)
    requires start + 4 * (m + n) <= |d| && GroupsInRange(d, start, m + n)
    ensures |GroupsText(d, start + 4 * m, n)| == 9 * n
  {
    FewerGroups(d, start, m, n);
    hide *;
    GroupsConcat(d, start, m, n);
    GroupsValue(d, start, m + n);
    GroupsValue(d, start, m);
  }

  // ----- decoding -----

  /** `trimPrecedingZeroes`: zeros in front of the first other character, after a minus sign if there is one. */
  function TrimPrecedingZeroes(s: string): (r: string)
    requires s != ""
  {
    if s[0] == '-' then "-" + TrimZeros(s[1..]) else TrimZeros(s)
  }

  lemma TrimNumeral(negative: bool, whole: string, frac: string)
    requires AllDigits(whole) && frac != ""
    ensures TrimPrecedingZeroes(NumeralText(negative, whole, frac)) == NumeralText(negative, TrimZeros(whole), frac)
  {
    var s := UnsignedText(whole, frac);
    assert s[0] != '-';
    SignStrips(negative, s);
    TrimWhole(whole, frac);
    hide TrimZeros, UnsignedText;
    assert negative ==> (SignText(negative) + s)[0] == '-';
    assert !negative ==> SignText(negative) + TrimZeros(s) == TrimZeros(s);
  }

  /** The whole part of a NEWDECIMAL text. */
  method PutWhole(negative: bool, d: seq<byte>, start: nat, m: nat) returns (txt: string)
    requires start + 4 * m <= |d|
    ensures txt == SignText(negative) + WholeText(d, start, m)
  {
    hide GroupsText;
    txt := if negative then "-" else "";
    var val := GetBe(d[..start]);
    Assoc(txt, LeadText(val), GroupsText(d, start, m));
    assert txt + "" == txt;
    if val > 0 {
      txt := txt + Format(val);
    }
    txt := PutGroups(txt, d, start, m);
  }

  /**
   `txt` is made of the digits `plain` before the point, as they are or trimmed, and `frac` after it; where there is no
   fraction and no digit, a zero stands in unless there is a minus sign already.
   */
  ghost predicate Spelled(txt: string, negative: bool, plain: string, frac: string, whole: string) {
    && AllDigits(whole) && txt == NumeralText(negative, whole, frac)
    && if frac == "" then whole == (if plain == "" && !negative then "0" else plain)
       else whole == plain || whole == TrimZeros(plain)
  }

  /** Such a text reads as its sign and digits, or as nothing where it has no digit. */
  lemma SpelledReads(txt: string, negative: bool, plain: string, frac: string, whole: string)
    requires AllDigits(plain) && AllDigits(frac) && AllDigits(plain + frac)
    requires Spelled(txt, negative, plain, frac, whole)
    ensures ParseNumeral(txt)
         == if negative && plain + frac == "" then None else Some(Numeral(negative, Value(plain + frac), |frac|))
  {
    NumeralReads(negative, whole, frac);
    TrimKeepsValue(plain, frac);
    assert Value("0") == 0 == Value("");
    hide AllDigits, Value, ParseNumeral, NumeralText, TrimZeros;
    assert frac == "" ==> plain + frac == plain && whole + frac == whole;
  }

  /** A negative number without digits is a minus sign. */
  lemma SpelledMinus(txt: string, negative: bool, plain: string, frac: string, whole: string)
    requires Spelled(txt, negative, plain, frac, whole)
    ensures negative && plain + frac == "" ==> txt == "-"
  {
    if negative && plain + frac == "" {
      assert plain == "" && frac == "";
    }
  }

  lemma MinusReads()
    ensures ParseNumeral("-") == None
  {
    NumeralReads(true, "", "");
    hide ParseNumeral;
    assert NumeralText(true, "", "") == "-";
  }

  /** The text of a number whose groups are `d`. */
  method PutNumeral(negative: bool, d: seq<byte>, h: Shape) returns (txt: string, ghost whole: string)
    requires h.Valid() && |d| == h.Length()
    ensures Spelled(txt, negative, WholeText(d, h.Start(), h.m), FracText(d, h.Start() + 4 * h.m, h.n, h.w), whole)
  {
    hide WholeText, FracText, Spelled, Dig2Bytes;
    var start, mid := h.Start(), h.Start() + 4 * h.m;
    ghost var plain := WholeText(d, start, h.m);
    txt := PutWhole(negative, d, start, h.m);
    if h.n == 0 && h.w == 0 {
      NoFraction(d, mid);
      txt, whole := PutZero(txt, negative, plain);
    } else {
      txt, whole := PutFraction(txt, negative, d, mid, h.n, h.w, plain);
    }
  }

  /** Without a fraction, a zero stands in for an empty text. */
  method PutZero(before: string, negative: bool, ghost plain: string) returns (txt: string, ghost whole: string)
    requires AllDigits(plain) && before == SignText(negative) + plain
    ensures Spelled(txt, negative, plain, "", whole)
  {
    SpelledWhole(negative, plain);
    txt, whole := before, plain;
    if txt == "" {
      txt, whole := "0", "0";
    }
  }

  lemma SpelledWhole(negative: bool, plain: string)
    requires AllDigits(plain)
    ensures var txt := SignText(negative) + plain;
            if txt == "" then Spelled("0", negative, plain, "", "0") else Spelled(txt, negative, plain, "", plain)
  {
    assert plain + "" == plain && "0" + "" == "0";
    assert "" + "0" == "0";
  }

  lemma NoFraction(d: seq<byte>, start: nat)
    requires start <= |d|
    ensures FracText(d, start, 0, 0) == ""
  {
  }

  /** The point and the digits after it; zeros are trimmed only where digits are left over after the last full group. */
  method PutFraction(before: string, negative: bool, d: seq<byte>, mid: nat, n: nat, w: nat, ghost plain: string)
    returns (txt: string, ghost whole: string)
    requires mid + 4 * n <= |d| && (n > 0 || w > 0) && AllDigits(plain) && before == SignText(negative) + plain
    ensures Spelled(txt, negative, plain, FracText(d, mid, n, w), whole)
  {
    ghost var groups, rest := GroupsText(d, mid, n), RestText(GetBe(d[mid + 4 * n..]), w);
    FracSome(d, mid, n, w);
    WithFraction(negative, plain, groups, rest);
    TrimNumeral(negative, plain, groups + rest);
    TrimDigits(plain);
    hide AllDigits, GroupsText, Padded, TrimZeros, NumeralText, TrimPrecedingZeroes;
    whole := plain;
    txt := PutGroups(before + ".", d, mid, n);
    if w == 0 {
      assert txt + "" == txt;
      return;
    }
    txt := txt + Padded(GetBe(d[mid + 4 * n..]), w);
    txt := TrimPrecedingZeroes(txt);
    whole := TrimZeros(plain);
  }

  lemma {:induction false} TrimDigits(s: string)
    requires AllDigits(s)
    ensures AllDigits(TrimZeros(s))
  {
    if s == "" || s[0] != '0' {
    } else {
      TrimDigits(s[1..]);
    }
  }

  /** A scale above zero leaves digits after the point. */
  lemma FracSome(d: seq<byte>, start: nat, n: nat, w: nat)
    requires start + 4 * n <= |d| && (n > 0 || w > 0)
    ensures FracText(d, start, n, w) != ""
  {
  }

  lemma WithFraction(negative: bool, whole: string, groups: string, rest: string)
    requires groups + rest != ""
    ensures SignText(negative) + whole + "." + groups + rest == NumeralText(negative, whole, groups + rest)
  {
  }

  /** There is no digit exactly where there is no group, no fraction and no leading value. */
  lemma NoDigits(d: seq<byte>, h: Shape)
    requires h.Valid() && |d| == h.Length()
    ensures WholeText(d, h.Start(), h.m) + FracText(d, h.Start() + 4 * h.m, h.n, h.w) == ""
       <==> h.m == 0 && h.Scale() == 0 && Unscaled(d, h) == 0
  {
    hide WholeText, FracText, GetBe, Dig2Bytes;
    WholeEmpty(d, h.Start(), h.m);
    if h.Scale() > 0 {
      FracSome(d, h.Start() + 4 * h.m, h.n, h.w);
    } else {
      NoFraction(d, h.Start() + 4 * h.m);
      if h.m == 0 {
        NothingAfter(d, h.Start());
      }
    }
  }

  lemma WholeEmpty(d: seq<byte>, start: nat, m: nat)
    requires start + 4 * m <= |d|
    ensures WholeText(d, start, m) == "" <==> m == 0 && GetBe(d[..start]) == 0
  {
    hide GetBe;
  }

  lemma NothingAfter(d: seq<byte>, start: nat)
    requires start <= |d|
    ensures start == |d| ==> GetBe(d[start..]) == 0
    ensures Shifted(Packed(d, start, 0), 0) == GetBe(d[..start])
  {
  }

  /** The text of a negative zero without full groups and without a fraction is a bare minus sign. */
  ghost predicate BareMinus(negative: bool, unscaled: nat, h: Shape) {
    negative && unscaled == 0 && h.Scale() == 0 && h.m == 0
  }

  lemma TextReads(txt: string, negative: bool, d: seq<byte>, h: Shape, whole: string)
    requires h.Valid() && |d| == h.Length() && InRange(d, h)
    requires Spelled(txt, negative, WholeText(d, h.Start(), h.m), FracText(d, h.Start() + 4 * h.m, h.n, h.w), whole)
    ensures ParseNumeral(txt)
         == if BareMinus(negative, Unscaled(d, h), h) then None else Some(Numeral(negative, Unscaled(d, h), h.Scale()))
  {
    hide Spelled, WholeText, FracText, ParseNumeral, Packed, Value, AllDigits, Shifted, GroupsInRange, Pow10, GetBe;
    hide Dig2Bytes;
    DigitsValue(d, h.Start(), h.m, h.n, h.w);
    NoDigits(d, h);
    SpelledReads(txt, negative, WholeText(d, h.Start(), h.m), FracText(d, h.Start() + 4 * h.m, h.n, h.w), whole);
  }

  lemma TextIsMinus(txt: string, negative: bool, d: seq<byte>, h: Shape, whole: string)
    requires h.Valid() && |d| == h.Length() && InRange(d, h)
    requires Spelled(txt, negative, WholeText(d, h.Start(), h.m), FracText(d, h.Start() + 4 * h.m, h.n, h.w), whole)
    ensures txt == "-" <==> BareMinus(negative, Unscaled(d, h), h)
  {
    hide Spelled, WholeText, FracText, ParseNumeral, Unscaled, InRange, Dig2Bytes;
    TextReads(txt, negative, d, h, whole);
    MinusReads();
    NoDigits(d, h);
    SpelledMinus(txt, negative, WholeText(d, h.Start(), h.m), FracText(d, h.Start() + 4 * h.m, h.n, h.w), whole);
  }

  /** The bytes of a NEWDECIMAL cell that is all there, and of a precision and scale some column has. */
  ghost predicate HasCell(data: seq<byte>, pos: nat, metadata: uint16) {
    && 1 <= metadata / 256 && metadata % 256 <= metadata / 256
    && pos + DecimalLength(metadata / 256, metadata % 256) <= |data|
  }

  lemma DecimalCell(data: seq<byte>, pos: nat, metadata: uint16)
    requires metadata % 256 <= metadata / 256
    ensures CellLength(data, pos, TYPE_NEW_DECIMAL, metadata) == Some(DecimalLength(metadata / 256, metadata % 256))
  {
  }

  /**
   The NEWDECIMAL branch of `CellValue`; the source fails in other ways where there is no cell. The length is that of
   `cellLength`; the text is a numeral with the sign, the digits and the scale of the cell, unless it is a bare minus.
   */
  method DecodeDecimal(data: seq<byte>, pos: nat, metadata: uint16) returns (r: Option<(string, nat)>)
    ensures r.Some? <==> HasCell(data, pos, metadata)
    ensures r.Some? ==> CellLength(data, pos, TYPE_NEW_DECIMAL, metadata) == Some(r.value.1)
    ensures r.Some? ==>
              var h := ShapeOf(metadata / 256, metadata % 256);
              var cell := data[pos..pos + h.Length()];
              InRange(Plain(cell), h) ==>
                && ParseNumeral(r.value.0)
                   == (if BareMinus(IsNegative(cell), Unscaled(Plain(cell), h), h) then None
                       else Some(Numeral(IsNegative(cell), Unscaled(Plain(cell), h), metadata % 256)))
                && (r.value.0 == "-" <==> BareMinus(IsNegative(cell), Unscaled(Plain(cell), h), h))
  {
    hide CellLength, DecimalLength, ShapeOf, InRange, Unscaled, Plain, ParseNumeral, BareMinus, Dig2Bytes, Spelled;
    hide WholeText, FracText;
    var precision, scale := metadata / 256, metadata % 256;
    if precision < 1 || precision < scale || pos + DecimalLength(precision, scale) > |data| {
      return None;
    }
    var h := ShapeOf(precision, scale);
    DecimalCell(data, pos, metadata);
    var negative, d := Unpack(data[pos..pos + h.Length()]);
    ghost var whole;
    var txt;
    txt, whole := PutNumeral(negative, d, h);
    if InRange(d, h) {
      TextReads(txt, negative, d, h, whole);
      TextIsMinus(txt, negative, d, h, whole);
    }
    return Some((txt, h.Length()));
  }

  /** The packed form of minus zero in `x` digits. */
  function NegativeZero(x: nat): (r: seq<byte>)
    requires 1 <= x < 9
    ensures |r| == Dig2Bytes(x) > 0
  {
    [0x7f] + seq(Dig2Bytes(x) - 1, _ => 0xff)
  }

  /** Minus zero as DECIMAL(x,0) with fewer than nine digits decodes to a minus sign and nothing else. */
  method DecodeNegativeZero(x: nat) returns (r: Option<(string, nat)>)
    requires 1 <= x < 9
    ensures r == Some(("-", Dig2Bytes(x))) && ParseNumeral("-") == None
  {
    hide *;
    MinusReads();
    NegativeZeroIsBareMinus(x);
    WholeDigits(x);
    var cell := NegativeZero(x);
    assert cell[0..|cell|] == cell;
    r := DecodeDecimal(cell, 0, 256 * x);
  }

  /** DECIMAL(x,0) has one short group. */
  lemma WholeDigits(x: nat)
    requires 1 <= x < 9
    ensures 256 * x / 256 == x && 256 * x % 256 == 0
    ensures ShapeOf(x, 0) == Shape(x, 0, 0, 0) && Shape(x, 0, 0, 0).Length() == Dig2Bytes(x)
    ensures HasCell(NegativeZero(x), 0, 256 * x)
    ensures CellLength(NegativeZero(x), 0, TYPE_NEW_DECIMAL, 256 * x) == Some(Dig2Bytes(x))
  {
    ByteAbove(x);
    DecimalCell(NegativeZero(x), 0, 256 * x);
    assert Dig2Bytes(0) == 0;
    hide Dig2Bytes, NegativeZero, CellLength;
    assert x / 9 == 0 && x % 9 == x;
  }

  lemma ByteAbove(x: nat)
    ensures 256 * x / 256 == x && 256 * x % 256 == 0
  {
  }

  lemma NegativeZeroIsBareMinus(x: nat)
    requires 1 <= x < 9
    ensures var cell, h := NegativeZero(x), Shape(x, 0, 0, 0);
            && |cell| == h.Length() && IsNegative(cell) && InRange(Plain(cell), h)
            && BareMinus(true, Unscaled(Plain(cell), h), h)
  {
    var cell, h := NegativeZero(x), Shape(x, 0, 0, 0);
    PlainNegativeZero(x);
    hide Plain, NegativeZero;
    ZeroDigits(Plain(cell), h);
    hide InRange, Unscaled;
  }

  lemma PlainNegativeZero(x: nat)
    requires 1 <= x < 9
    ensures var cell := NegativeZero(x);
            IsNegative(cell) && forall k :: 0 <= k < |cell| ==> Plain(cell)[k] == 0
  {
  }

  lemma ZeroDigits(d: seq<byte>, h: Shape)
    requires h.Valid() && h.m == 0 && h.n == 0 && h.w == 0 && |d| == h.Length()
    requires forall k :: 0 <= k < |d| ==> d[k] == 0
    ensures InRange(d, h) && Unscaled(d, h) == 0
  {
    ZeroBe(d[..h.Start()]);
    ZeroBe(d[h.End()..]);
    hide GetBe, Dig2Bytes;
  }

  lemma {:induction false} ZeroBe(s: seq<byte>)
    requires forall k :: 0 <= k < |s| ==> s[k] == 0
    ensures GetBe(s) == 0
  {
    if s == [] {
    } else {
      ZeroBe(s[..|s| - 1]);
    }
  }
}
