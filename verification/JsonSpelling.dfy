/**
  The strings of JSON as section 7 of RFC 8259 spells them, character by character. What reader.h makes of a text is proved to be
  what was spelled, in both directions, and its errors to be the ways in which a text is no spelling.
 */
module JsonSpelling {
  import opened Wrappers
  import opened Bytes
  import opened JsonSyntax
  import Utf8

  // ---------------------------------------------------------------------------------------------
  // Strings
  // ---------------------------------------------------------------------------------------------

  /** A piece of a string: a character that stands for itself, a short escape, or \u escapes with digits in either case. */
  datatype Piece = Plain(c: byte) | Short(e: byte) | Unit(u: nat, lower: seq<bool>) | Pair(v: nat, lower: seq<bool>, lower2: seq<bool>)

  /** The eight short escapes and what they stand for. */
  function ShortValue(e: byte): (c: byte) {
    if e == 34 then 34       // quotation mark
    else if e == 92 then 92  // reverse solidus
    else if e == 47 then 47  // solidus
    else if e == 98 then 8   // b
    else if e == 102 then 12 // f
    else if e == 110 then 10 // n
    else if e == 114 then 13 // r
    else if e == 116 then 9  // t
    else 0
  }

  /** One unit is anything but the first half of a surrogate pair; RFC 3629 has no encoding for the second half alone. */
  predicate WellSpelled(p: Piece) {
    match p
    case Plain(c) => c >= 32 && c != 34 && c != 92
    case Short(e) => ShortValue(e) != 0
    case Unit(u, lower) => u < 0x10000 && !(0xD800 <= u < 0xDC00) && |lower| == 4
    case Pair(v, lower, lower2) => 0x10000 <= v <= 0x10FFFF && |lower| == 4 && |lower2| == 4
  }

  /** A hexadecimal digit, in lower case if wanted. */
  function HexByte(d: nat, lower: bool): (c: byte)
    requires d < 16
  {
    if d < 10 then 48 + d else if lower then 87 + d else 55 + d
  }

  function HexText(u: nat, lower: seq<bool>): (r: Text)
    requires u < 0x10000 && |lower| == 4
    ensures |r| == 4
  {
    [HexByte(u / 4096, lower[0]), HexByte(u / 256 % 16, lower[1]), HexByte(u / 16 % 16, lower[2]), HexByte(u % 16, lower[3])]
  }

  function UnitText(u: nat, lower: seq<bool>): (r: Text)
    requires u < 0x10000 && |lower| == 4
    ensures |r| == 6
  {
    [92, 117] + HexText(u, lower)
  }

  function PieceText(p: Piece): (r: Text)
    requires WellSpelled(p)
    ensures |r| > 0
  {
    match p
    case Plain(c) => [c]
    case Short(e) => [92, e]
    case Unit(u, lower) => UnitText(u, lower)
    case Pair(v, lower, lower2) => UnitText(0xD800 + (v - 0x10000) / 1024, lower) + UnitText(0xDC00 + (v - 0x10000) % 1024, lower2)
  }

  function PieceValue(p: Piece): (r: Text)
    requires WellSpelled(p)
  {
    match p
    case Plain(c) => [c]
    case Short(e) => [ShortValue(e)]
    case Unit(u, _) => Utf8.Encode(u)
    case Pair(v, _, _) => Utf8.Encode(v)
  }

  ghost predicate AllWellSpelled(pieces: seq<Piece>) {
    forall p | p in pieces :: WellSpelled(p)
  }

  function Spelled(pieces: seq<Piece>): (r: Text)
    requires AllWellSpelled(pieces)
  {
    if pieces == [] then [] else PieceText(pieces[0]) + Spelled(pieces[1..])
  }

  function Meant(pieces: seq<Piece>): (r: Text)
    requires AllWellSpelled(pieces)
  {
    if pieces == [] then [] else PieceValue(pieces[0]) + Meant(pieces[1..])
  }

  function StringText(pieces: seq<Piece>): (r: Text)
    requires AllWellSpelled(pieces)
  {
    [34] + Spelled(pieces) + [34]
  }

  // ---------------------------------------------------------------------------------------------
  // Pieces are read as what they stand for
  // ---------------------------------------------------------------------------------------------

  lemma ShortIsUnescape(e: byte)
    ensures ShortValue(e) == Unescape(e)
  {
  }

  lemma HexByteReads(d: nat, lower: bool)
    requires d < 16
    ensures HexDigit(HexByte(d, lower)) == Some(d)
  {
  }

  lemma HexSteps(s: Text, i: nat, a: nat, b: nat, c: nat, d: nat)
    requires HexDigit(Peek(s, i)) == Some(a) && HexDigit(Peek(s, i + 1)) == Some(b)
    requires HexDigit(Peek(s, i + 2)) == Some(c) && HexDigit(Peek(s, i + 3)) == Some(d)
    ensures Hex4(s, i) == Some(4096 * a + 256 * b + 16 * c + d)
  {
    hide HexDigit;
    var x, y, z := a, 16 * a + b, 16 * (16 * a + b) + c;
    assert Hex(s, i + 4, 0, 16 * z + d) == Some(16 * z + d);
    assert Hex(s, i + 3, 1, z) == Hex(s, i + 4, 0, 16 * z + d);
    assert Hex(s, i + 2, 2, y) == Hex(s, i + 3, 1, z);
    assert Hex(s, i + 1, 3, x) == Hex(s, i + 2, 2, y);
    assert Hex(s, i, 4, 0) == Hex(s, i + 1, 3, x);
  }

  lemma HexDigitsSum(u: nat)
    requires u < 0x10000
    ensures u == 4096 * (u / 4096) + 256 * (u / 256 % 16) + 16 * (u / 16 % 16) + u % 16 && u / 4096 < 16
  {
    assert u / 16 == 16 * (u / 256) + u / 16 % 16;
    assert u / 256 == 16 * (u / 4096) + u / 256 % 16;
  }

  /** Four digits are read as the number that they spell. */
  lemma HexReads(s: Text, i: nat, u: nat, lower: seq<bool>)
    requires u < 0x10000 && |lower| == 4 && At(s, i, HexText(u, lower))
    ensures Hex4(s, i) == Some(u)
  {
    hide HexByte, Hex4;
    var t := HexText(u, lower);
    AtIndex(s, i, t, 0);
    AtIndex(s, i, t, 1);
    AtIndex(s, i, t, 2);
    AtIndex(s, i, t, 3);
    HexDigitsSum(u);
    HexByteReads(u / 4096, lower[0]);
    HexByteReads(u / 256 % 16, lower[1]);
    HexByteReads(u / 16 % 16, lower[2]);
    HexByteReads(u % 16, lower[3]);
    HexSteps(s, i, u / 4096, u / 256 % 16, u / 16 % 16, u % 16);
  }

  lemma UnitReads(s: Text, i: nat, u: nat, lower: seq<bool>)
    requires u < 0x10000 && |lower| == 4 && At(s, i, UnitText(u, lower))
    ensures i + 6 <= |s| && s[i] == 92 && s[i + 1] == 117 && Hex4(s, i + 2) == Some(u)
  {
    hide HexText, Hex4;
    AtConcat(s, i, [92, 117], HexText(u, lower));
    AtIndex(s, i, [92, 117], 0);
    AtIndex(s, i, [92, 117], 1);
    HexReads(s, i + 2, u, lower);
  }

  lemma PairHalves(v: nat)
    requires 0x10000 <= v <= 0x10FFFF
    ensures var high, low := 0xD800 + (v - 0x10000) / 1024, 0xDC00 + (v - 0x10000) % 1024;
            0xD800 <= high <= 0xDBFF && 0xDC00 <= low <= 0xDFFF && (high - 0xD800) * 1024 + (low - 0xDC00) + 0x10000 == v
  {
  }

  lemma EscapeReads(s: Text, i: nat, p: Piece)
    requires WellSpelled(p) && !p.Plain? && At(s, i, PieceText(p))
    ensures i < |s| && s[i] == 92 && ParseEscape(s, i) == EscapeOk(PieceValue(p), i + |PieceText(p)|)
  {
    hide Hex4, UnitText, Utf8.Encode;
    match p
    case Short(e) =>
      AtIndex(s, i, [92, e], 0);
      AtIndex(s, i, [92, e], 1);
      ShortIsUnescape(e);
    case Unit(u, lower) => UnitReads(s, i, u, lower);
    case Pair(v, lower, lower2) =>
      var high, low := 0xD800 + (v - 0x10000) / 1024, 0xDC00 + (v - 0x10000) % 1024;
      PairHalves(v);
      AtConcat(s, i, UnitText(high, lower), UnitText(low, lower2));
      UnitReads(s, i, high, lower);
      UnitReads(s, i + 6, low, lower2);
  }

  /** A piece is read as what it stands for. */
  lemma PieceReads(s: Text, i: nat, p: Piece, acc: Text)
    requires WellSpelled(p) && At(s, i, PieceText(p))
    ensures StringBody(s, i, acc) == StringBody(s, i + |PieceText(p)|, acc + PieceValue(p))
  {
    hide ParseEscape;
    if p.Plain? {
      AtIndex(s, i, [p.c], 0);
    } else {
      EscapeReads(s, i, p);
    }
  }

  lemma {:induction false} PiecesRead(s: Text, i: nat, pieces: seq<Piece>, acc: Text)
    requires AllWellSpelled(pieces) && i <= |s| && At(s, i, Spelled(pieces))
    ensures StringBody(s, i, acc) == StringBody(s, i + |Spelled(pieces)|, acc + Meant(pieces))
    decreases |pieces|
  {
    hide StringBody, PieceText, PieceValue, At;
    if pieces == [] {
      assert acc + [] == acc;
    } else {
      var p, more := pieces[0], pieces[1..];
      AtConcat(s, i, PieceText(p), Spelled(more));
      AtInside(s, i + |PieceText(p)|, Spelled(more));
      PieceReads(s, i, p, acc);
      PiecesRead(s, i + |PieceText(p)|, more, acc + PieceValue(p));
      assert acc + PieceValue(p) + Meant(more) == acc + (PieceValue(p) + Meant(more));
    }
  }

  lemma AtInside(s: Text, i: nat, part: Text)
    requires At(s, i, part)
    ensures i + |part| <= |s|
  {
  }

  /** A scalar value, however its escape is written, is read as bytes that are valid UTF-8 for it. */
  lemma ScalarSpelled(s: Text, i: nat, v: nat, lower: seq<bool>, lower2: seq<bool>)
    requires Utf8.IsScalar(v) && |lower| == 4 && |lower2| == 4
    requires At(s, i, PieceText(if v < 0x10000 then Unit(v, lower) else Pair(v, lower, lower2)))
    ensures i < |s| && ParseEscape(s, i).EscapeOk? && ParseEscape(s, i).next == i + (if v < 0x10000 then 6 else 12)
    ensures var bytes := ParseEscape(s, i).value; Utf8.Validate(bytes, 0) && Utf8.Width(bytes[0]) == |bytes| && Utf8.Decode(bytes, 0) == v
  {
    hide PieceText, ParseEscape, Utf8.Encode, Utf8.Validate, Utf8.Decode, Utf8.Width;
    var p := if v < 0x10000 then Unit(v, lower) else Pair(v, lower, lower2);
    EscapeReads(s, i, p);
    PieceSize(p);
    Utf8.DecodeEncode(v);
  }

  lemma PieceSize(p: Piece)
    requires WellSpelled(p)
    ensures (p.Unit? ==> |PieceText(p)| == 6) && (p.Pair? ==> |PieceText(p)| == 12)
  {
  }

  // ---------------------------------------------------------------------------------------------
  // What is no spelling
  // ---------------------------------------------------------------------------------------------

  predicate IsHex(c: byte) {
    48 <= c <= 57 || 65 <= c <= 70 || 97 <= c <= 102
  }

  /** Four hexadecimal digits, or the text ends before. */
  predicate FourDigits(s: Text, i: nat) {
    i + 4 <= |s| && IsHex(s[i]) && IsHex(s[i + 1]) && IsHex(s[i + 2]) && IsHex(s[i + 3])
  }

  /** They spell the first half of a surrogate pair: D8 to DB. */
  predicate FirstHalf(s: Text, i: nat) {
    FourDigits(s, i) && (s[i] == 68 || s[i] == 100) && (s[i + 1] == 56 || s[i + 1] == 57 || s[i + 1] == 65 || s[i + 1] == 66 || s[i + 1] == 97 || s[i + 1] == 98)
  }

  /** They spell the second half: DC to DF. */
  predicate SecondHalf(s: Text, i: nat) {
    FourDigits(s, i) && (s[i] == 68 || s[i] == 100) && (67 <= s[i + 1] <= 70 || 99 <= s[i + 1] <= 102)
  }

  predicate IsUnitStart(s: Text, i: nat) {
    i + 1 < |s| && s[i] == 92 && s[i + 1] == 117
  }

  /** What is wrong at a place in a string. */
  predicate Fault(s: Text, j: nat, code: ErrorCode) {
    match code
    case StringMissQuotationMark => j == |s| || (j < |s| && s[j] == 0)
    case StringInvalidEncoding => j < |s| && 0 < s[j] < 32
    case StringEscapeInvalid => j < |s| && s[j] == 92 && (j + 1 < |s| ==> ShortValue(s[j + 1]) == 0 && s[j + 1] != 117)
    case StringUnicodeEscapeInvalidHex =>
      IsUnitStart(s, j) && (!FourDigits(s, j + 2) || (FirstHalf(s, j + 2) && IsUnitStart(s, j + 6) && !FourDigits(s, j + 8)))
    case StringUnicodeSurrogateInvalid =>
      IsUnitStart(s, j) && FirstHalf(s, j + 2) && (!IsUnitStart(s, j + 6) || (FourDigits(s, j + 8) && !SecondHalf(s, j + 8)))
    case _ => false
  }

  lemma HexIsDigit(c: byte)
    ensures IsHex(c) <==> HexDigit(c).Some?
  {
  }

  /** The digits that were read, and the number they spell. */
  lemma HexExact(s: Text, i: nat)
    ensures Hex4(s, i).Some? <==> FourDigits(s, i)
    ensures FirstHalf(s, i) <==> Hex4(s, i).Some? && 0xD800 <= Hex4(s, i).value <= 0xDBFF
    ensures SecondHalf(s, i) <==> Hex4(s, i).Some? && 0xDC00 <= Hex4(s, i).value <= 0xDFFF
  {
    HexIsDigit(Peek(s, i));
    HexIsDigit(Peek(s, i + 1));
    HexIsDigit(Peek(s, i + 2));
    HexIsDigit(Peek(s, i + 3));
    if FourDigits(s, i) {
      var a, b := HexDigit(s[i]).value, HexDigit(s[i + 1]).value;
      var c, d := HexDigit(s[i + 2]).value, HexDigit(s[i + 3]).value;
      hide Hex4;
      HexSteps(s, i, a, b, c, d);
      Halves(a, b, c, d);
    } else {
      NoHex(s, i, 4, 0, if !IsHex(Peek(s, i)) then 0 else if !IsHex(Peek(s, i + 1)) then 1 else if !IsHex(Peek(s, i + 2)) then 2 else 3);
    }
  }

  lemma Halves(a: nat, b: nat, c: nat, d: nat)
    requires a < 16 && b < 16 && c < 16 && d < 16
    ensures 0xD800 <= 4096 * a + 256 * b + 16 * c + d <= 0xDBFF <==> a == 13 && 8 <= b < 12
    ensures 0xDC00 <= 4096 * a + 256 * b + 16 * c + d <= 0xDFFF <==> a == 13 && 12 <= b
  {
  }

  lemma {:induction false} NoHex(s: Text, i: nat, n: nat, acc: nat, k: nat)
    requires k < n && HexDigit(Peek(s, i + k)).None?
    ensures Hex(s, i, n, acc).None?
    decreases n
  {
    hide HexDigit;
    if k > 0 && HexDigit(Peek(s, i)).Some? { NoHex(s, i + 1, n - 1, 16 * acc + HexDigit(Peek(s, i)).value, k - 1); }
  }

  /** Four digits in whatever case they are. */
  lemma HexSpelled(s: Text, i: nat) returns (lower: seq<bool>)
    requires Hex4(s, i).Some?
    ensures |lower| == 4 && At(s, i, HexText(Hex4(s, i).value, lower))
  {
    HexExact(s, i);
    var a, b := HexDigit(s[i]).value, HexDigit(s[i + 1]).value;
    var c, d := HexDigit(s[i + 2]).value, HexDigit(s[i + 3]).value;
    lower := [s[i] >= 97, s[i + 1] >= 97, s[i + 2] >= 97, s[i + 3] >= 97];
    DigitSpelled(s[i]);
    DigitSpelled(s[i + 1]);
    DigitSpelled(s[i + 2]);
    DigitSpelled(s[i + 3]);
    hide Hex4, HexDigit, HexByte;
    HexSteps(s, i, a, b, c, d);
    DigitsOf(a, b, c, d);
    assert s[i..i + 4] == [s[i], s[i + 1], s[i + 2], s[i + 3]];
  }

  lemma DigitSpelled(c: byte)
    requires IsHex(c)
    ensures HexDigit(c).Some? && HexByte(HexDigit(c).value, c >= 97) == c
  {
  }

  lemma DigitsOf(a: nat, b: nat, c: nat, d: nat)
    requires a < 16 && b < 16 && c < 16 && d < 16
    ensures var u := 4096 * a + 256 * b + 16 * c + d;
            u < 0x10000 && u / 4096 == a && u / 256 % 16 == b && u / 16 % 16 == c && u % 16 == d
  {
    var u := 4096 * a + 256 * b + 16 * c + d;
    assert u / 16 == 256 * a + 16 * b + c;
    assert u / 256 == 16 * a + b;
  }

  // ---------------------------------------------------------------------------------------------
  // Strings, exactly
  // ---------------------------------------------------------------------------------------------

  lemma UnitSpelled(s: Text, i: nat) returns (lower: seq<bool>)
    requires IsUnitStart(s, i) && Hex4(s, i + 2).Some?
    ensures |lower| == 4 && At(s, i, UnitText(Hex4(s, i + 2).value, lower))
  {
    hide HexText, Hex4;
    lower := HexSpelled(s, i + 2);
    assert s[i..i + 2] == [92, 117];
    AtConcat(s, i, [92, 117], HexText(Hex4(s, i + 2).value, lower));
  }

  lemma PairOf(high: nat, low: nat)
    requires 0xD800 <= high <= 0xDBFF && 0xDC00 <= low <= 0xDFFF
    ensures var v := (high - 0xD800) * 1024 + (low - 0xDC00) + 0x10000;
            0x10000 <= v <= 0x10FFFF && 0xD800 + (v - 0x10000) / 1024 == high && 0xDC00 + (v - 0x10000) % 1024 == low
  {
  }

  /** An escape that is read was spelled. */
  lemma EscapeSpelled(s: Text, i: nat) returns (p: Piece)
    requires i < |s| && s[i] == 92 && ParseEscape(s, i).EscapeOk?
    ensures WellSpelled(p) && At(s, i, PieceText(p)) && ParseEscape(s, i) == EscapeOk(PieceValue(p), i + |PieceText(p)|)
  {
    hide Hex4, Utf8.Encode, UnitText, At;
    ShortIsUnescape(Peek(s, i + 1));
    if Unescape(Peek(s, i + 1)) != 0 {
      p := Short(s[i + 1]);
      TwoAt(s, i);
    } else {
      var u := Hex4(s, i + 2).value;
      var lower := UnitSpelled(s, i);
      if 0xD800 <= u <= 0xDBFF {
        var low := Hex4(s, i + 8).value;
        var lower2 := UnitSpelled(s, i + 6);
        PairOf(u, low);
        p := Pair((u - 0xD800) * 1024 + (low - 0xDC00) + 0x10000, lower, lower2);
        AtConcat(s, i, UnitText(u, lower), UnitText(low, lower2));
      } else {
        p := Unit(u, lower);
      }
    }
  }

  lemma TwoAt(s: Text, i: nat)
    requires i + 1 < |s| && s[i] == 92
    ensures At(s, i, [92, s[i + 1]])
  {
    assert s[i..i + 2] == [s[i], s[i + 1]];
  }

  /** An escape is an error if and only if there is such a fault. */
  lemma EscapeFault(s: Text, i: nat, code: ErrorCode)
    requires i < |s| && s[i] == 92
    ensures ParseEscape(s, i) == EscapeErr(code) <==> Fault(s, i, code)
  {
    hide Hex4, Utf8.Encode, FourDigits, FirstHalf, SecondHalf;
    ShortIsUnescape(Peek(s, i + 1));
    HexExact(s, i + 2);
    HexExact(s, i + 8);
    HalvesAreDigits(s, i + 2);
    HalvesAreDigits(s, i + 8);
  }

  lemma HalvesAreDigits(s: Text, i: nat)
    ensures FirstHalf(s, i) || SecondHalf(s, i) ==> FourDigits(s, i)
    ensures !(FirstHalf(s, i) && SecondHalf(s, i))
  {
  }

  /** The place of a fault is where reading stops, with that error. */
  lemma FaultReads(s: Text, j: nat, acc: Text, code: ErrorCode)
    requires j <= |s| && Fault(s, j, code)
    ensures StringBody(s, j, acc) == StringErr(code, j)
  {
    hide ParseEscape;
    if j < |s| && s[j] == 92 {
      EscapeFault(s, j, code);
    }
  }

  /** Whatever the text: pieces, and behind them a quotation mark or a fault. */
  lemma {:induction false} BodySpelled(s: Text, i: nat, acc: Text) returns (pieces: seq<Piece>, fault: Option<ErrorCode>)
    requires i <= |s|
    ensures AllWellSpelled(pieces) && At(s, i, Spelled(pieces))
    ensures var j := i + |Spelled(pieces)|; if fault.None? then j < |s| && s[j] == 34 else Fault(s, j, fault.value)
    decreases |s| - i
  {
    hide ParseEscape, PieceText, At;
    pieces, fault := [], None;
    NothingAt(s, i);
    if i < |s| && s[i] == 92 {
      if ParseEscape(s, i).EscapeOk? {
        var p := EscapeSpelled(s, i);
        pieces, fault := MoreSpelled(s, i, p, acc);
      } else {
        fault := Some(ParseEscape(s, i).code);
        EscapeFault(s, i, fault.value);
      }
    } else if i < |s| && s[i] == 34 {
    } else if i == |s| || s[i] < 32 {
      fault := Some(if i == |s| || s[i] == 0 then StringMissQuotationMark else StringInvalidEncoding);
    } else {
      PlainAt(s, i);
      pieces, fault := MoreSpelled(s, i, Plain(s[i]), acc);
    }
  }

  lemma {:induction false} MoreSpelled(s: Text, i: nat, p: Piece, acc: Text) returns (pieces: seq<Piece>, fault: Option<ErrorCode>)
    requires i < |s| && WellSpelled(p) && At(s, i, PieceText(p))
    ensures AllWellSpelled(pieces) && At(s, i, Spelled(pieces))
    ensures var j := i + |Spelled(pieces)|; if fault.None? then j < |s| && s[j] == 34 else Fault(s, j, fault.value)
    decreases |s| - i, 0
  {
    hide At, Fault;
    var next := i + |PieceText(p)|;
    AtInside(s, i, PieceText(p));
    hide PieceText;
    var more;
    more, fault := BodySpelled(s, next, acc);
    pieces := [p] + more;
    assert pieces[1..] == more;
    AtConcat(s, i, PieceText(p), Spelled(more));
  }

  lemma NothingAt(s: Text, i: nat)
    requires i <= |s|
    ensures At(s, i, [])
  {
  }

  lemma PlainAt(s: Text, i: nat)
    requires i < |s| && s[i] >= 32 && s[i] != 34 && s[i] != 92
    ensures WellSpelled(Plain(s[i])) && At(s, i, PieceText(Plain(s[i])))
  {
    AtByte(s, i, s[i]);
  }

  lemma QuoteEnds(s: Text, i: nat, acc: Text)
    requires i < |s| && s[i] == 34
    ensures StringBody(s, i, acc) == StringOk(acc, i + 1)
  {
  }

  lemma StringParts(s: Text, i: nat, pieces: seq<Piece>)
    requires AllWellSpelled(pieces)
    ensures At(s, i, StringText(pieces)) <==>
            i < |s| && s[i] == 34 && At(s, i + 1, Spelled(pieces)) && i + 1 + |Spelled(pieces)| < |s| && s[i + 1 + |Spelled(pieces)|] == 34
  {
    var body := Spelled(pieces);
    hide Spelled, At;
    AtConcat(s, i, [34] + body, [34]);
    AtConcat(s, i, [34], body);
    AtByte(s, i, 34);
    AtByte(s, i + 1 + |body|, 34);
  }

  /** A string that is spelled is read as what it means, unless its length does not fit 32 bits. */
  lemma StringReads(s: Text, i: nat, pieces: seq<Piece>)
    requires AllWellSpelled(pieces) && At(s, i, StringText(pieces))
    ensures i < |s| && s[i] == 34
    ensures ParseString(s, i) == if |Meant(pieces)| + 1 < 0x1_0000_0000 then StringOk(Meant(pieces), i + |StringText(pieces)|)
                                 else StringErr(LengthWraps, i)
  {
    hide StringBody, Spelled, Meant, At;
    StringParts(s, i, pieces);
    PiecesRead(s, i + 1, pieces, []);
    QuoteEnds(s, i + 1 + |Spelled(pieces)|, [] + Meant(pieces));
    assert [] + Meant(pieces) == Meant(pieces);
  }

  /** A string that is read was spelled. */
  lemma StringSpelled(s: Text, i: nat) returns (pieces: seq<Piece>)
    requires i < |s| && s[i] == 34 && ParseString(s, i).StringOk?
    ensures AllWellSpelled(pieces) && At(s, i, StringText(pieces)) && ParseString(s, i) == StringOk(Meant(pieces), i + |StringText(pieces)|)
  {
    hide StringBody, Spelled, Meant, At, Fault;
    var fault;
    pieces, fault := BodySpelled(s, i + 1, []);
    PiecesRead(s, i + 1, pieces, []);
    AtInside(s, i + 1, Spelled(pieces));
    if fault.Some? {
      FaultReads(s, i + 1 + |Spelled(pieces)|, [] + Meant(pieces), fault.value);
    } else {
      StringParts(s, i, pieces);
      StringReads(s, i, pieces);
    }
  }

  /** An error is reported, at that place, if and only if there is such a fault behind pieces that are spelled. */
  lemma StringFault(s: Text, i: nat, pieces: seq<Piece>, code: ErrorCode)
    requires i < |s| && AllWellSpelled(pieces) && At(s, i + 1, Spelled(pieces)) && Fault(s, i + 1 + |Spelled(pieces)|, code)
    ensures ParseString(s, i) == StringErr(code, i + 1 + |Spelled(pieces)|)
  {
    hide StringBody, Spelled, Meant, At, Fault;
    AtInside(s, i + 1, Spelled(pieces));
    PiecesRead(s, i + 1, pieces, []);
    FaultReads(s, i + 1 + |Spelled(pieces)|, [] + Meant(pieces), code);
  }

  lemma StringRefused(s: Text, i: nat) returns (pieces: seq<Piece>)
    requires i < |s| && ParseString(s, i).StringErr? && ParseString(s, i).code != LengthWraps
    ensures AllWellSpelled(pieces) && At(s, i + 1, Spelled(pieces))
    ensures ParseString(s, i).offset == i + 1 + |Spelled(pieces)| && Fault(s, ParseString(s, i).offset, ParseString(s, i).code)
  {
    hide StringBody, Spelled, Meant, At, Fault;
    var fault;
    pieces, fault := BodySpelled(s, i + 1, []);
    PiecesRead(s, i + 1, pieces, []);
    AtInside(s, i + 1, Spelled(pieces));
    var j := i + 1 + |Spelled(pieces)|;
    if fault.Some? {
      FaultReads(s, j, [] + Meant(pieces), fault.value);
    } else {
      QuoteEnds(s, j, [] + Meant(pieces));
    }
  }

  /** The second half of a surrogate pair is accepted alone, as bytes that are no UTF-8. */
  lemma LoneHalfAccepted()
    ensures var s: Text := [34, 92, 117, 68, 67, 48, 48, 34];
            ParseString(s, 0) == StringOk([0xED, 0xB0, 0x80], 8) && !Utf8.Validate([0xED, 0xB0, 0x80], 0)
  {
    var s: Text := [34, 92, 117, 68, 67, 48, 48, 34];
    var p := Unit(0xDC00, [false, false, false, false]);
    assert [p][1..] == [];
    assert Spelled([p]) == PieceText(p) + Spelled([]) && Meant([p]) == PieceValue(p) + Meant([]);
    assert PieceText(p) == [92, 117, 68, 67, 48, 48];
    assert PieceValue(p) == [0xED, 0xB0, 0x80];
    assert StringText([p]) == s;
    assert s[0..8] == s;
    hide Spelled, Meant, ParseString;
    StringReads(s, 0, [p]);
    Utf8.ValidateCases([0xED, 0xB0, 0x80], 0);
  }
}
