/** The text that writer.h produces for a value, and the proof that reader.h reads it back as that value. */
module JsonPrint {
  import opened Wrappers
  import opened Bytes
  import opened JsonSyntax
  import opened JsonDom
  import opened JsonSpelling
  import opened JsonNumeral
  import opened JsonText
  import JsonGrammar

  // ---------------------------------------------------------------------------------------------
  // Text
  // ---------------------------------------------------------------------------------------------

  /** Decimal digits without leading zeros. */
  function Decimal(n: nat): (r: Text)
    ensures |r| > 0 && forall k | 0 <= k < |r| :: IsDigit(r[k])
    ensures r[0] == '0' as int <==> n == 0
  {
    if n < 10 then ['0' as int + n] else Decimal(n / 10) + ['0' as int + n % 10]
  }

  function PrintInteger(v: int): (r: Text)
    ensures |r| > 0
  {
    if v < 0 then ['-' as int] + Decimal(-v) else Decimal(v)
  }

  function HexChar(d: nat): (c: byte)
    requires d < 16
  {
    if d < 10 then '0' as int + d else 'A' as int + (d - 10)
  }

  /** The letter after the backslash for a character that is escaped, or 0. */
  function EscapeLetter(c: byte): (e: byte) {
    if c == 8 then 'b' as int
    else if c == 9 then 't' as int
    else if c == 10 then 'n' as int
    else if c == 12 then 'f' as int
    else if c == 13 then 'r' as int
    else if c < 0x20 then 'u' as int
    else if c == '"' as int || c == '\\' as int then c
    else 0
  }

  /** One character of a string: itself, a short escape, or \u00XY. */
  function Escaped(c: byte): (r: Text)
    ensures 1 <= |r| <= 6
  {
    var e := EscapeLetter(c);
    if e == 0 then [c]
    else if e == 'u' as int then ['\\' as int, 'u' as int, '0' as int, '0' as int, HexChar(c / 16), HexChar(c % 16)]
    else ['\\' as int, e]
  }

  /** How each character is written: the short escapes, \u00XY in upper case for the other control characters, and itself. */
  lemma WrittenAs(c: byte)
    ensures Escaped(c) ==
            if c == 8 then [92, 98] else if c == 9 then [92, 116] else if c == 10 then [92, 110] else if c == 12 then [92, 102]
            else if c == 13 then [92, 114] else if c == 34 then [92, 34] else if c == 92 then [92, 92]
            else if c < 32 then [92, 117, 48, 48, 48 + c / 16, "0123456789ABCDEF"[c % 16] as int]
            else [c]
  {
  }

  /** The characters of a string from index k on. */
  function EscapedFrom(str: Text, k: nat): (r: Text)
    requires k <= |str|
    ensures |r| <= 6 * (|str| - k)
    decreases |str| - k
  {
    if k == |str| then [] else Escaped(str[k]) + EscapedFrom(str, k + 1)
  }

  function Quoted(str: Text): (r: Text)
    ensures 2 <= |r| <= 2 + 6 * |str|
  {
    ['"' as int] + EscapedFrom(str, 0) + ['"' as int]
  }

  const NULL_TEXT: Text := ['n' as int, 'u' as int, 'l' as int, 'l' as int]
  const TRUE_TEXT: Text := ['t' as int, 'r' as int, 'u' as int, 'e' as int]
  const FALSE_TEXT: Text := ['f' as int, 'a' as int, 'l' as int, 's' as int, 'e' as int]

  function Print(v: Value): (r: Text)
    decreases v, 0
  {
    match v
    case NullValue => NULL_TEXT
    case BoolValue(b) => if b then TRUE_TEXT else FALSE_TEXT
    case NumberValue(n) => PrintInteger(IntegerOf(n))
    case StringValue(str) => Quoted(str)
    case ArrayValue(elements) => ['[' as int] + ElementsFrom(elements, 0) + [']' as int]
    case ObjectValue(members) => ['{' as int] + MembersFrom(members, 0) + ['}' as int]
  }

  /** The elements from index k on, with a comma before each but the first of the array. */
  function ElementsFrom(elements: seq<Value>, k: nat): (r: Text)
    requires k <= |elements|
    decreases elements, |elements| - k
  {
    if k == |elements| then []
    else (if k > 0 then [',' as int] else []) + Print(elements[k]) + ElementsFrom(elements, k + 1)
  }

  function MembersFrom(members: seq<Member>, k: nat): (r: Text)
    requires k <= |members|
    decreases members, |members| - k
  {
    if k == |members| then []
    else (if k > 0 then [',' as int] else []) + Quoted(members[k].name) + [':' as int] + Print(members[k].value)
         + MembersFrom(members, k + 1)
  }

  // ---------------------------------------------------------------------------------------------
  // It is a text of the grammar
  // ---------------------------------------------------------------------------------------------

  /** How a character of a string is spelled. */
  function PieceOf(c: byte): (p: Piece) {
    var e := EscapeLetter(c);
    if e == 0 then Plain(c) else if e == 'u' as int then Unit(c, [false, false, false, false]) else Short(e)
  }

  lemma HexCharReads(d: nat)
    requires d < 16
    ensures HexDigit(HexChar(d)) == Some(d)
  {
  }

  lemma PieceOfIs(c: byte)
    ensures WellSpelled(PieceOf(c)) && PieceText(PieceOf(c)) == Escaped(c) && PieceValue(PieceOf(c)) == [c]
  {
    if EscapeLetter(c) == 'u' as int {
      var lower := [false, false, false, false];
      assert HexText(c, lower) == ['0' as int, '0' as int, HexChar(c / 16), HexChar(c % 16)];
    }
  }

  function PiecesOf(str: Text): (r: seq<Piece>) {
    seq(|str|, k requires 0 <= k < |str| => PieceOf(str[k]))
  }

  lemma {:induction false} PiecesFrom(str: Text, k: nat)
    requires k <= |str|
    ensures AllWellSpelled(PiecesOf(str)[k..]) && Spelled(PiecesOf(str)[k..]) == EscapedFrom(str, k) && Meant(PiecesOf(str)[k..]) == str[k..]
    decreases |str| - k
  {
    hide PieceOf, PieceText, PieceValue, Escaped, WellSpelled;
    var pieces := PiecesOf(str);
    if k < |str| {
      PieceOfIs(str[k]);
      PiecesFrom(str, k + 1);
      assert pieces[k..][1..] == pieces[k + 1..] && pieces[k..] == [pieces[k]] + pieces[k + 1..];
      assert str[k..] == [str[k]] + str[k + 1..];
    }
  }

  /** A printed string is a spelling of it. */
  lemma QuotedIsSpelled(str: Text)
    ensures AllWellSpelled(PiecesOf(str)) && StringText(PiecesOf(str)) == Quoted(str) && Meant(PiecesOf(str)) == str
  {
    hide PiecesOf;
    PiecesFrom(str, 0);
    assert PiecesOf(str)[0..] == PiecesOf(str) && str[0..] == str;
  }

  lemma {:induction false} DecimalAmount(n: nat)
    ensures AreDigits(Decimal(n)) && Amount(Decimal(n)) == n
  {
    if n >= 10 {
      DecimalAmount(n / 10);
      assert Decimal(n)[..|Decimal(n)| - 1] == Decimal(n / 10);
    }
  }

  lemma {:induction false} DecimalZero(n: nat)
    ensures Decimal(n)[0] == 48 ==> |Decimal(n)| == 1
  {
  }

  function NumeralOf(v: int): (n: Numeral) {
    Numeral(v < 0, Decimal(if v < 0 then -v else v), None, None)
  }

  /** A printed integer is a numeral that is read as it. */
  lemma IntegerIsNumeral(v: int)
    requires -TWO63 <= v < TWO64
    ensures WellFormed(NumeralOf(v)) && NumeralText(NumeralOf(v)) == PrintInteger(v) && NumeralEvent(NumeralOf(v)) == Some(ReadEvent(v))
  {
    var n := if v < 0 then -v else v;
    DecimalAmount(n);
    DecimalZero(n);
    hide Decimal, Amount, AreDigits;
  }

  function TreeOf(v: Value): (t: Tree)
    decreases v, 1
  {
    match v
    case NullValue => NullTree
    case BoolValue(b) => BoolTree(b)
    case NumberValue(n) => NumberTree(NumeralOf(IntegerOf(n)))
    case StringValue(str) => StringTree(PiecesOf(str))
    case ArrayValue(elements) => if elements == [] then EmptyArray([]) else ArrayTree(ItemsOf(elements))
    case ObjectValue(members) => if members == [] then EmptyObject([]) else ObjectTree(FieldsOf(members))
  }

  function ItemsOf(elements: seq<Value>): (r: seq<Item>)
    ensures |r| == |elements| && forall k | 0 <= k < |r| :: r[k] == Item([], TreeOf(elements[k]), [])
    decreases elements, 0
  {
    seq(|elements|, k requires 0 <= k < |elements| => Item([], TreeOf(elements[k]), []))
  }

  function FieldsOf(members: seq<Member>): (r: seq<Field>)
    ensures |r| == |members| && forall k | 0 <= k < |r| :: r[k] == Field([], PiecesOf(members[k].name), [], [], TreeOf(members[k].value), [])
    decreases members, 0
  {
    seq(|members|, k requires 0 <= k < |members| => Field([], PiecesOf(members[k].name), [], [], TreeOf(members[k].value), []))
  }

  /** The tree without white space has the text and the events of the value. */
  ghost predicate Stands(v: Value, big: TooBig)
    requires Valid(v)
  {
    Proper(TreeOf(v), big) && TreeText(TreeOf(v)) == Print(v) && TreeEvents(TreeOf(v)) == EventsOf(v)
  }

  lemma {:induction false} PrintIsText(v: Value, big: TooBig)
    requires Valid(v)
    ensures Stands(v, big)
    decreases v, 1
  {
    hide NumeralOf, PrintInteger, NumeralText, NumeralEvent, WellFormed, Quoted, StringText, Meant, PiecesOf;
    match v
    case NullValue =>
    case BoolValue(b) =>
    case NumberValue(n) =>
      var k: int :| -TWO63 <= k < TWO64 && n == Integer(k);
      IntegerOfInteger(k);
      IntegerIsNumeral(k);
    case StringValue(str) => QuotedIsSpelled(str);
    case ArrayValue(elements) => ArrayIsText(elements, big);
    case ObjectValue(members) => ObjectIsText(members, big);
  }

  lemma Bracketed(a: Text, b: Text, c: Text)
    ensures a + b + c == a + (b + c)
  {
  }

  lemma Grouped(a: seq<Event>, b: seq<Event>, c: seq<Event>)
    ensures a + b + c == a + (b + c)
  {
  }

  lemma EmptyGaps(t: Text)
    ensures [] + (t + []) == t
  {
  }

  /** A separator, a part, and what follows it, closed by a bracket. */
  lemma Chain(a: Text, p: Text, b: Text, rest: Text, more: Text, close: Text)
    requires b + rest == more + close
    ensures a + (p + (b + rest)) == a + p + more + close
  {
  }

  // Arrays

  function Comma(k: nat): (r: Text) {
    if k > 0 then [44] else []
  }

  lemma ElementsStep(elements: seq<Value>, k: nat)
    requires k < |elements| && forall e | e in elements :: Valid(e)
    ensures ElementsFrom(elements, k) == Comma(k) + Print(elements[k]) + ElementsFrom(elements, k + 1)
    ensures ElementEvents(elements, k) == EventsOf(elements[k]) + ElementEvents(elements, k + 1)
    ensures k + 1 == |elements| ==> ElementsFrom(elements, k + 1) == [] && ElementEvents(elements, k + 1) == []
  {
    hide Print, EventsOf;
  }

  lemma ElementIsItem(v: Value, big: TooBig)
    requires Valid(v) && Stands(v, big)
    ensures var x := Item([], TreeOf(v), []); ProperItem(x, big) && ItemText(x) == Print(v) && TreeEvents(x.tree) == EventsOf(v)
  {
    hide Proper, TreeText, Print, TreeOf, TreeEvents, EventsOf;
    EmptyGaps(Print(v));
  }

  ghost predicate SameItems(elements: seq<Value>, k: nat, big: TooBig)
    requires k <= |elements| && Valid(ArrayValue(elements))
  {
    var items := ItemsOf(elements);
    && Comma(k) + ItemsText(items, k) == ElementsFrom(elements, k) + [93]
    && ItemsEvents(items, k) == ElementEvents(elements, k) + [EndArray(|elements|)]
    && forall j | k <= j < |items| :: ProperItem(items[j], big)
  }

  lemma {:induction false} ElementsAreItems(elements: seq<Value>, k: nat, big: TooBig)
    requires Valid(ArrayValue(elements)) && k < |elements|
    ensures SameItems(elements, k, big)
    decreases elements, |elements| - k
  {
    hide Print, TreeEvents, EventsOf, TreeOf, ItemsText, ItemsEvents, ElementsFrom, ElementEvents, ItemText, ProperItem, Stands;
    var items, e := ItemsOf(elements), elements[k];
    PrintIsText(e, big);
    ElementIsItem(e, big);
    ElementsStep(elements, k);
    ItemsStep(items, k);
    if k + 1 < |elements| {
      ElementsAreItems(elements, k + 1, big);
      Chain(Comma(k), Print(e), [44], ItemsText(items, k + 1), ElementsFrom(elements, k + 1), [93]);
      Grouped(EventsOf(e), ElementEvents(elements, k + 1), [EndArray(|elements|)]);
    } else {
      ItemsLast(items);
      Chain(Comma(k), Print(e), [], [93], [], [93]);
      assert EventsOf(e) + [] == EventsOf(e);
    }
  }

  lemma {:induction false} ArrayIsText(elements: seq<Value>, big: TooBig)
    requires Valid(ArrayValue(elements))
    ensures Stands(ArrayValue(elements), big)
    decreases elements, |elements| + 1
  {
    hide ElementsFrom, ItemsText, ItemsEvents, ElementEvents, ProperItem;
    if elements == [] {
      NoElements(elements);
    } else {
      ElementsAreItems(elements, 0, big);
      Bracketed([91], ElementsFrom(elements, 0), [93]);
      assert Comma(0) + ItemsText(ItemsOf(elements), 0) == ItemsText(ItemsOf(elements), 0);
      Grouped([StartArray], ElementEvents(elements, 0), [EndArray(|elements|)]);
    }
  }

  lemma NoElements(elements: seq<Value>)
    requires elements == []
    ensures ElementsFrom(elements, 0) == [] && ElementEvents(elements, 0) == []
  {
  }

  // Objects

  lemma MembersStep(members: seq<Member>, k: nat)
    requires k < |members| && forall m | m in members :: Valid(m.value)
    ensures MembersFrom(members, k) == Comma(k) + (Quoted(members[k].name) + [58] + Print(members[k].value)) + MembersFrom(members, k + 1)
    ensures MemberEvents(members, k) == ([Key(members[k].name)] + EventsOf(members[k].value)) + MemberEvents(members, k + 1)
    ensures k + 1 == |members| ==> MembersFrom(members, k + 1) == [] && MemberEvents(members, k + 1) == []
  {
    hide Print, EventsOf, Quoted;
    var q, p, more := Quoted(members[k].name), Print(members[k].value), MembersFrom(members, k + 1);
    assert Comma(k) + q + [58] + p + more == Comma(k) + (q + [58] + p) + more;
  }

  lemma MemberIsField(m: Member, big: TooBig)
    requires Countable(m.name) && Valid(m.value) && Stands(m.value, big)
    ensures var f := Field([], PiecesOf(m.name), [], [], TreeOf(m.value), []);
            && ProperField(f, big) && FieldText(f) == Quoted(m.name) + [58] + Print(m.value)
            && NameValue(f.name) == m.name && TreeEvents(f.tree) == EventsOf(m.value)
  {
    hide Print, TreeText, Proper, Quoted, StringText, Meant, PiecesOf, TreeOf, TreeEvents, EventsOf;
    QuotedIsSpelled(m.name);
    var q, p := Quoted(m.name), Print(m.value);
    assert [] + (q + ([] + ([58] + ([] + (p + []))))) == q + [58] + p;
  }

  ghost predicate SameFields(members: seq<Member>, k: nat, big: TooBig)
    requires k <= |members| && Valid(ObjectValue(members))
  {
    var fields := FieldsOf(members);
    && Comma(k) + FieldsText(fields, k) == MembersFrom(members, k) + [125]
    && FieldsEvents(fields, k) == MemberEvents(members, k) + [EndObject(|members|)]
    && forall j | k <= j < |fields| :: ProperField(fields[j], big)
  }

  lemma {:induction false} MembersAreFields(members: seq<Member>, k: nat, big: TooBig)
    requires Valid(ObjectValue(members)) && k < |members|
    ensures SameFields(members, k, big)
    decreases members, |members| - k
  {
    hide Print, TreeEvents, EventsOf, TreeOf, Quoted, PiecesOf, FieldText, NameValue, ProperField, Stands;
    hide FieldsText, FieldsEvents, MembersFrom, MemberEvents;
    var fields, m := FieldsOf(members), members[k];
    PrintIsText(m.value, big);
    MemberIsField(m, big);
    MembersStep(members, k);
    FieldsStep(fields, k);
    var text := Quoted(m.name) + [58] + Print(m.value);
    var events := [Key(m.name)] + EventsOf(m.value);
    if k + 1 < |members| {
      MembersAreFields(members, k + 1, big);
      Chain(Comma(k), text, [44], FieldsText(fields, k + 1), MembersFrom(members, k + 1), [125]);
      Grouped(events, MemberEvents(members, k + 1), [EndObject(|members|)]);
    } else {
      FieldsLast(fields);
      Chain(Comma(k), text, [], [125], [], [125]);
      assert events + [] == events;
    }
  }

  lemma {:induction false} ObjectIsText(members: seq<Member>, big: TooBig)
    requires Valid(ObjectValue(members))
    ensures Stands(ObjectValue(members), big)
    decreases members, |members| + 1
  {
    hide MembersFrom, FieldsText, FieldsEvents, MemberEvents, ProperField;
    if members == [] {
      NoMembers(members);
    } else {
      MembersAreFields(members, 0, big);
      Bracketed([123], MembersFrom(members, 0), [125]);
      assert Comma(0) + FieldsText(FieldsOf(members), 0) == FieldsText(FieldsOf(members), 0);
      Grouped([StartObject], MemberEvents(members, 0), [EndObject(|members|)]);
    }
  }

  lemma NoMembers(members: seq<Member>)
    requires members == []
    ensures MembersFrom(members, 0) == [] && MemberEvents(members, 0) == []
  {
  }

  // ---------------------------------------------------------------------------------------------
  // Reading it back
  // ---------------------------------------------------------------------------------------------

  /** A printed integer is read as that integer. */
  lemma IntegerReads(s: Text, i: nat, v: int, big: TooBig)
    requires -TWO63 <= v < TWO64 && At(s, i, PrintInteger(v)) && Ends(Peek(s, i + |PrintInteger(v)|))
    ensures i <= |s| && ParseNumber(s, i, big) == Ok([ReadEvent(v)], i + |PrintInteger(v)|)
  {
    hide PrintInteger, NumeralOf, NumeralText, NumeralEvent, WellFormed, ParseNumber, At;
    IntegerIsNumeral(v);
    NumeralReads(s, i, NumeralOf(v), big);
  }

  /** A printed string is read as that string. */
  lemma QuotedReads(s: Text, i: nat, str: Text)
    requires At(s, i, Quoted(str)) && |str| + 1 < TWO32
    ensures i < |s| && s[i] == '"' as int && ParseString(s, i) == StringOk(str, i + |Quoted(str)|)
  {
    hide Quoted, StringText, Meant, PiecesOf, ParseString, At;
    QuotedIsSpelled(str);
    StringReads(s, i, PiecesOf(str));
  }

  /** The printed text of a value is read as the events of that value. */
  lemma ValueReads(s: Text, i: nat, v: Value, big: TooBig)
    requires Valid(v) && At(s, i, Print(v)) && Closes(Peek(s, i + |Print(v)|))
    ensures i <= |s| && JsonGrammar.Value(s, i, big) == Ok(EventsOf(v), i + |Print(v)|)
  {
    hide JsonGrammar.Value, Print, EventsOf, TreeOf, TreeText, TreeEvents, Proper, At;
    PrintIsText(v, big);
    TreeReads(s, i, TreeOf(v), big);
  }

  lemma PrintStarts(v: Value)
    ensures |Print(v)| > 0 && Starts(Print(v)[0])
  {
    if v.NumberValue? { PrintIntegerStarts(IntegerOf(v.number)); }
  }

  lemma PrintIntegerStarts(v: int)
    ensures PrintInteger(v)[0] == '-' as int || IsDigit(PrintInteger(v)[0])
  {
  }

  lemma NoSpace(s: Text, i: nat)
    requires i <= |s| && !IsSpace(Peek(s, i))
    ensures SkipSpace(s, i) == i
  {
  }

  // ---------------------------------------------------------------------------------------------
  // The round trip
  // ---------------------------------------------------------------------------------------------

  /** Reading the text of a value gives its events, to the end of the text. */
  lemma PrintedReads(v: Value, big: TooBig)
    requires Valid(v)
    ensures JsonGrammar.Document(Print(v), big) == Ok(EventsOf(v), |Print(v)|)
  {
    hide JsonGrammar.Document, Print, EventsOf, TreeOf, TreeText, TreeEvents, Proper;
    PrintIsText(v, big);
    EmptyGaps(Print(v));
    DocumentReads(Print(v), [], TreeOf(v), [], big);
  }

  /** A value that is written and read again is the same value. */
  lemma RoundTrip(v: Value, big: TooBig)
    requires Valid(v)
    ensures var r := JsonGrammar.Document(Print(v), big);
            r.Ok? && r.next == |Print(v)| && Build([], r.events) == Some([v])
  {
    hide *;
    PrintedReads(v, big);
    BuildsValue([], v);
    assert [] + [v] == [v];
  }
}
