/**
  The lexical elements of JSON text as reader.h recognises them with its default flags: white space, strings, numbers
  and the three names. A stream shows a NUL behind its last character.
 */
module JsonSyntax {
  import opened Wrappers
  import opened Bytes
  import Utf8

  type Text = seq<byte>

  /** Lengths and counts are 32 bits wide. */
  const TWO32 := 0x1_0000_0000

  /**
    The errors of a parse. LengthWraps is none that the source reports: it marks the place where the 32-bit length of a string
    wraps around, behind which what the source does is not modelled.
   */
  datatype ErrorCode =
    | DocumentEmpty | DocumentRootNotSingular | ValueInvalid | ObjectMissName | ObjectMissColon | ObjectMissCommaOrCurlyBracket
    | ArrayMissCommaOrSquareBracket | StringUnicodeEscapeInvalidHex | StringUnicodeSurrogateInvalid | StringEscapeInvalid
    | StringMissQuotationMark | StringInvalidEncoding | LengthWraps | NumberTooBig | NumberMissFraction | NumberMissExponent

  /** The events a handler receives. A number that becomes a double is given by its text. */
  datatype Event =
    | Null | Bool(b: bool) | Int(value: int) | Uint(value: int) | Int64(value: int) | Uint64(value: int) | Double(text: Text)
    | String(str: Text) | StartObject | Key(str: Text) | EndObject(count: nat) | StartArray | EndArray(count: nat)

  /** Events up to the position after a value, or up to an error. */
  datatype Outcome = Ok(events: seq<Event>, next: nat) | Err(events: seq<Event>, code: ErrorCode, offset: nat)

  /** Whether the text of a number is too big for a double. */
  type TooBig = Text -> bool

  /** The next character of a stream. */
  function Peek(s: Text, i: nat): (c: byte) {
    if i < |s| then s[i] else 0
  }

  predicate IsSpace(c: byte) {
    c == ' ' as int || c == '\n' as int || c == '\r' as int || c == '\t' as int
  }

  predicate IsDigit(c: byte) {
    '0' as int <= c <= '9' as int
  }

  /** The position of the first character that is not white space. */
  function SkipSpace(s: Text, i: nat): (j: nat)
    requires i <= |s|
    ensures i <= j <= |s| && !IsSpace(Peek(s, j))
    decreases |s| - i
  {
    if IsSpace(Peek(s, i)) then SkipSpace(s, i + 1) else i
  }

  // ---------------------------------------------------------------------------------------------
  // Names
  // ---------------------------------------------------------------------------------------------

  /** Compares the rest of a name; the position after it, or of the first character that differs. */
  function MatchName(s: Text, i: nat, name: Text): (r: (bool, nat))
    requires i <= |s| && 0 !in name
    ensures i <= r.1 <= |s| && (r.0 ==> r.1 == i + |name|)
    decreases |name|
  {
    if name == [] then (true, i)
    else if Peek(s, i) == name[0] then MatchName(s, i + 1, name[1..])
    else (false, i)
  }

  function ParseName(s: Text, i: nat, name: Text, event: Event): (r: Outcome)
    requires i < |s| && 0 !in name
    ensures r.Err? ==> r.events == []
    ensures r.Ok? ==> i < r.next <= |s|
  {
    var (ok, next) := MatchName(s, i + 1, name);
    if ok then Ok([event], next) else Err([], ValueInvalid, next)
  }

  // ---------------------------------------------------------------------------------------------
  // Strings
  // ---------------------------------------------------------------------------------------------

  datatype StringResult = StringOk(value: Text, next: nat) | StringErr(code: ErrorCode, offset: nat)

  /** The character an escape letter stands for, or 0. */
  function Unescape(e: byte): (c: byte) {
    if e == '"' as int || e == '/' as int || e == '\\' as int then e
    else if e == 'b' as int then 8
    else if e == 'f' as int then 12
    else if e == 'n' as int then 10
    else if e == 'r' as int then 13
    else if e == 't' as int then 9
    else 0
  }

  function HexDigit(c: byte): (d: Option<nat>)
    ensures d.Some? ==> d.value < 16 && c != 0
  {
    if '0' as int <= c <= '9' as int then Some(c - '0' as int)
    else if 'A' as int <= c <= 'F' as int then Some(c - 'A' as int + 10)
    else if 'a' as int <= c <= 'f' as int then Some(c - 'a' as int + 10)
    else None
  }

  /** The value of `n` hexadecimal digits, `acc` being that of the digits before them. */
  function Hex(s: Text, i: nat, n: nat, acc: nat): (r: Option<nat>)
    ensures r.Some? ==> i + n <= |s| || n == 0
    decreases n
  {
    if n == 0 then Some(acc)
    else match HexDigit(Peek(s, i))
      case None => None
      case Some(d) => Hex(s, i + 1, n - 1, 16 * acc + d)
  }

  lemma {:induction false} HexBound(s: Text, i: nat, n: nat, acc: nat, limit: nat)
    requires acc < limit && Hex(s, i, n, acc).Some?
    ensures Hex(s, i, n, acc).value < limit * Pow16(n)
    decreases n
  {
    if n > 0 {
      var d := HexDigit(Peek(s, i)).value;
      HexBound(s, i + 1, n - 1, 16 * acc + d, 16 * limit);
      assert 16 * limit * Pow16(n - 1) == limit * (16 * Pow16(n - 1));
    }
  }

  function Pow16(n: nat): (r: nat) {
    if n == 0 then 1 else 16 * Pow16(n - 1)
  }

  /** The four digits of a \u escape. */
  function Hex4(s: Text, i: nat): (r: Option<nat>)
    ensures r.Some? ==> i + 4 <= |s| && r.value < 0x10000
  {
    var r := Hex(s, i, 4, 0);
    if r.Some? then HexBound(s, i, 4, 0, 1); assert Pow16(4) == 0x10000; r else r
  }

  datatype EscapeResult = EscapeOk(value: Text, next: nat) | EscapeErr(code: ErrorCode)

  /** The escape sequence whose backslash is at `i`. */
  function ParseEscape(s: Text, i: nat): (r: EscapeResult)
    requires i < |s|
    ensures r.EscapeOk? ==> i + 1 < r.next <= |s|
  {
    var e := Peek(s, i + 1);
    if Unescape(e) != 0 then EscapeOk([Unescape(e)], i + 2)
    else if e != 'u' as int then EscapeErr(StringEscapeInvalid)
    else match Hex4(s, i + 2)
      case None => EscapeErr(StringUnicodeEscapeInvalidHex)
      case Some(high) =>
        if !(0xD800 <= high <= 0xDBFF) then EscapeOk(Utf8.Encode(high), i + 6)
        else if Peek(s, i + 6) != '\\' as int || Peek(s, i + 7) != 'u' as int then EscapeErr(StringUnicodeSurrogateInvalid)
        else match Hex4(s, i + 8)
          case None => EscapeErr(StringUnicodeEscapeInvalidHex)
          case Some(low) =>
            if !(0xDC00 <= low <= 0xDFFF) then EscapeErr(StringUnicodeSurrogateInvalid)
            else EscapeOk(Utf8.Encode((high - 0xD800) * 1024 + (low - 0xDC00) + 0x10000), i + 12)
  }

  /** The rest of a string, up to and including its closing quotation mark; `acc` is what came before. */
  function StringBody(s: Text, i: nat, acc: Text): (r: StringResult)
    requires i <= |s|
    ensures r.StringOk? ==> i < r.next <= |s|
    decreases |s| - i
  {
    var c := Peek(s, i);
    if c == '\\' as int then
      match ParseEscape(s, i)
      case EscapeErr(code) => StringErr(code, i)
      case EscapeOk(value, next) => StringBody(s, next, acc + value)
    else if c == '"' as int then StringOk(acc, i + 1)
    else if c < 0x20 then StringErr(if c == 0 then StringMissQuotationMark else StringInvalidEncoding, i)
    else StringBody(s, i + 1, acc + [c])
  }

  /** StackStream::Pop: the characters that were put, as far as their 32-bit count goes back. */
  function Popped(put: Text): (r: Text) {
    put[|put| - |put| % TWO32..]
  }

  /** A string and the NUL behind it come back whole if and only if their count does not wrap around. */
  lemma PoppedIsPut(value: Text)
    ensures Popped(value + [0]) == value + [0] <==> |value| + 1 < TWO32
  {
    if |value| + 1 >= TWO32 { assert |Popped(value + [0])| < |value + [0]|; }
  }

  /** A string whose opening quotation mark is at `i`. */
  function ParseString(s: Text, i: nat): (r: StringResult)
    requires i < |s|
    ensures r.StringOk? ==> i + 1 < r.next <= |s| && |r.value| + 1 < TWO32
  {
    match StringBody(s, i + 1, [])
    case StringErr(code, offset) => StringErr(code, offset)
    case StringOk(value, next) => if |value| + 1 < TWO32 then StringOk(value, next) else StringErr(LengthWraps, i)
  }

  // ---------------------------------------------------------------------------------------------
  // Numbers
  // ---------------------------------------------------------------------------------------------

  /** The position of the first character that is not a digit. */
  function DigitsEnd(s: Text, i: nat): (j: nat)
    requires i <= |s|
    ensures i <= j <= |s| && !IsDigit(Peek(s, j)) && (j > i <==> IsDigit(Peek(s, i)))
    decreases |s| - i
  {
    if IsDigit(Peek(s, i)) then DigitsEnd(s, i + 1) else i
  }

  function DigitValue(c: byte): (d: nat)
    requires IsDigit(c)
    ensures d <= 9
  {
    c - '0' as int
  }

  /** The number written by the digits s[i..j]. */
  function DecimalValue(s: Text, i: nat, j: nat): (v: nat)
    requires i <= j <= |s| && forall k | i <= k < j :: IsDigit(s[k])
    decreases j
  {
    if i == j then 0 else 10 * DecimalValue(s, i, j - 1) + DigitValue(s[j - 1])
  }

  lemma {:induction false} DigitsAreDigits(s: Text, i: nat)
    requires i <= |s|
    ensures forall k | i <= k < DigitsEnd(s, i) :: IsDigit(s[k])
    decreases |s| - i
  {
    if IsDigit(Peek(s, i)) { DigitsAreDigits(s, i + 1); }
  }

  /** The end of the integer part at `i`: a single zero, or digits of which the first is not zero; None otherwise. */
  function IntegerEnd(s: Text, i: nat): (r: Option<nat>)
    requires i <= |s|
    ensures r.Some? ==> i < r.value <= |s| && forall k | i <= k < r.value :: IsDigit(s[k])
  {
    if Peek(s, i) == '0' as int then Some(i + 1)
    else if IsDigit(Peek(s, i)) then DigitsAreDigits(s, i); Some(DigitsEnd(s, i))
    else None
  }

  datatype ScanResult = ScanOk(next: nat) | ScanErr(code: ErrorCode, offset: nat)

  /** The fraction and the exponent that may follow an integer part ending at `i`. */
  function FractionEnd(s: Text, i: nat): (r: ScanResult)
    requires i <= |s|
    ensures r.ScanOk? ==> i <= r.next <= |s|
  {
    if Peek(s, i) != '.' as int then ScanOk(i)
    else if !IsDigit(Peek(s, i + 1)) then ScanErr(NumberMissFraction, i + 1)
    else ScanOk(DigitsEnd(s, i + 1))
  }

  function ExponentEnd(s: Text, i: nat): (r: ScanResult)
    requires i <= |s|
    ensures r.ScanOk? ==> i <= r.next <= |s|
  {
    if Peek(s, i) != 'e' as int && Peek(s, i) != 'E' as int then ScanOk(i)
    else
      var k := if Peek(s, i + 1) == '+' as int || Peek(s, i + 1) == '-' as int then i + 2 else i + 1;
      if !IsDigit(Peek(s, k)) then ScanErr(NumberMissExponent, k) else ScanOk(DigitsEnd(s, k))
  }

  /** The event for an integer: the narrowest type offered for its sign that holds it, if any does. */
  function IntegerEvent(minus: bool, v: nat): (r: Option<Event>) {
    if minus then
      if v <= 0x8000_0000 then Some(Int(0 - v as int)) else if v <= 0x8000_0000_0000_0000 then Some(Int64(0 - v as int)) else None
    else
      if v <= 0xFFFF_FFFF then Some(Uint(v)) else if v <= 0xFFFF_FFFF_FFFF_FFFF then Some(Uint64(v)) else None
  }

  /** A number at `i`. */
  function ParseNumber(s: Text, i: nat, big: TooBig): (r: Outcome)
    requires i <= |s|
    ensures r.Err? ==> r.events == []
    ensures r.Ok? ==> i < r.next <= |s|
    ensures Peek(s, i) == 0 ==> r == Err([], ValueInvalid, i)
  {
    var minus := Peek(s, i) == '-' as int;
    var first := if minus then i + 1 else i;
    match IntegerEnd(s, first)
    case None => Err([], ValueInvalid, first)
    case Some(end) =>
      match FractionEnd(s, end)
      case ScanErr(code, offset) => Err([], code, offset)
      case ScanOk(frac) =>
        match ExponentEnd(s, frac)
        case ScanErr(code, offset) => Err([], code, offset)
        case ScanOk(next) =>
          var event := if next == end then IntegerEvent(minus, DecimalValue(s, first, end)) else None;
          if event.Some? then Ok([event.value], next)
          else if big(s[i..next]) then Err([], NumberTooBig, i)
          else Ok([Double(s[i..next])], next)
  }
}
