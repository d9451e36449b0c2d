/**
  JSON texts by the grammar of RFC 8259, as trees that keep every character: the white space between the tokens, the spelling
  of strings and the digits of numbers. Reading is proved to accept exactly the texts of such trees, and to give the events of the tree.
 */
module JsonText {
  import opened Wrappers
  import opened Bytes
  import opened JsonSyntax
  import opened JsonSpelling
  import opened JsonNumeral
  import JsonGrammar

  datatype Tree =
    | NullTree | BoolTree(b: bool) | NumberTree(n: Numeral) | StringTree(pieces: seq<Piece>)
    | EmptyArray(gap: Text) | ArrayTree(items: seq<Item>) | EmptyObject(gap: Text) | ObjectTree(fields: seq<Field>)

  datatype Item = Item(before: Text, tree: Tree, after: Text)

  datatype Field = Field(before: Text, name: seq<Piece>, afterName: Text, beforeValue: Text, tree: Tree, after: Text)

  /** White space: space, tab, line feed and carriage return. */
  predicate IsGap(t: Text) {
    forall k | 0 <= k < |t| :: t[k] == 32 || t[k] == 9 || t[k] == 10 || t[k] == 13
  }

  ghost predicate GoodName(pieces: seq<Piece>) {
    AllWellSpelled(pieces) && |Meant(pieces)| + 1 < 0x1_0000_0000
  }

  /** A tree of the grammar, whose strings fit 32 bits and whose numbers are not too big for a double. */
  ghost predicate Proper(t: Tree, big: TooBig) {
    match t
    case NumberTree(n) => WellFormed(n) && (NumeralEvent(n).None? ==> !big(NumeralText(n)))
    case StringTree(pieces) => GoodName(pieces)
    case EmptyArray(gap) => IsGap(gap)
    case EmptyObject(gap) => IsGap(gap)
    case ArrayTree(items) => |items| > 0 && forall x | x in items :: ProperItem(x, big)
    case ObjectTree(fields) => |fields| > 0 && forall f | f in fields :: ProperField(f, big)
    case _ => true
  }

  ghost predicate ProperItem(x: Item, big: TooBig) {
    IsGap(x.before) && IsGap(x.after) && Proper(x.tree, big)
  }

  ghost predicate ProperField(f: Field, big: TooBig) {
    IsGap(f.before) && GoodName(f.name) && IsGap(f.afterName) && IsGap(f.beforeValue) && IsGap(f.after) && Proper(f.tree, big)
  }

  ghost predicate AllItems(items: seq<Item>, big: TooBig) {
    forall x | x in items :: ProperItem(x, big)
  }

  ghost predicate AllFields(fields: seq<Field>, big: TooBig) {
    forall f | f in fields :: ProperField(f, big)
  }

  /** The text of a string, if it is spelled. */
  ghost function NameText(pieces: seq<Piece>): (r: Text) {
    if AllWellSpelled(pieces) then StringText(pieces) else []
  }

  ghost function NameValue(pieces: seq<Piece>): (r: Text) {
    if AllWellSpelled(pieces) then Meant(pieces) else []
  }

  ghost function TreeText(t: Tree): (r: Text)
    decreases t, 0
  {
    match t
    case NullTree => [110, 117, 108, 108]
    case BoolTree(b) => if b then [116, 114, 117, 101] else [102, 97, 108, 115, 101]
    case NumberTree(n) => NumeralText(n)
    case StringTree(pieces) => NameText(pieces)
    case EmptyArray(gap) => [91] + (gap + [93])
    case ArrayTree(items) => [91] + ItemsText(items, 0)
    case EmptyObject(gap) => [123] + (gap + [125])
    case ObjectTree(fields) => [123] + FieldsText(fields, 0)
  }

  ghost function ItemText(x: Item): (r: Text)
    decreases x, 1
  {
    x.before + (TreeText(x.tree) + x.after)
  }

  /** The items from index k on and the closing bracket. */
  ghost function ItemsText(items: seq<Item>, k: nat): (r: Text)
    requires k <= |items|
    decreases items, |items| - k
  {
    if k == |items| then [93]
    else ItemText(items[k]) + if k + 1 == |items| then [93] else [44] + ItemsText(items, k + 1)
  }

  ghost function FieldText(f: Field): (r: Text)
    decreases f, 1
  {
    f.before + (NameText(f.name) + (f.afterName + ([58] + (f.beforeValue + (TreeText(f.tree) + f.after)))))
  }

  ghost function FieldsText(fields: seq<Field>, k: nat): (r: Text)
    requires k <= |fields|
    decreases fields, |fields| - k
  {
    if k == |fields| then [125]
    else FieldText(fields[k]) + if k + 1 == |fields| then [125] else [44] + FieldsText(fields, k + 1)
  }

  ghost function TreeEvents(t: Tree): (r: seq<Event>)
    decreases t, 0
  {
    match t
    case NullTree => [Null]
    case BoolTree(b) => [Bool(b)]
    case NumberTree(n) => [if WellFormed(n) && NumeralEvent(n).Some? then NumeralEvent(n).value else Double(NumeralText(n))]
    case StringTree(pieces) => [String(NameValue(pieces))]
    case EmptyArray(_) => [StartArray, EndArray(0)]
    case ArrayTree(items) => [StartArray] + ItemsEvents(items, 0)
    case EmptyObject(_) => [StartObject, EndObject(0)]
    case ObjectTree(fields) => [StartObject] + FieldsEvents(fields, 0)
  }

  /** The events of the items from index k on, and the end of the array with its count in 32 bits. */
  ghost function ItemsEvents(items: seq<Item>, k: nat): (r: seq<Event>)
    requires k <= |items|
    decreases items, |items| - k
  {
    if k == |items| then [EndArray(|items| % 0x1_0000_0000)] else TreeEvents(items[k].tree) + ItemsEvents(items, k + 1)
  }

  ghost function FieldsEvents(fields: seq<Field>, k: nat): (r: seq<Event>)
    requires k <= |fields|
    decreases fields, |fields| - k
  {
    if k == |fields| then [EndObject(|fields| % 0x1_0000_0000)]
    else [Key(NameValue(fields[k].name))] + TreeEvents(fields[k].tree) + FieldsEvents(fields, k + 1)
  }

  // ---------------------------------------------------------------------------------------------
  // White space
  // ---------------------------------------------------------------------------------------------

  lemma {:induction false} GapSkipped(s: Text, i: nat, gap: Text)
    requires i <= |s| && IsGap(gap) && At(s, i, gap) && !IsSpace(Peek(s, i + |gap|))
    ensures SkipSpace(s, i) == i + |gap|
    decreases |gap|
  {
    if gap != [] {
      AtIndex(s, i, gap, 0);
      assert gap == [gap[0]] + gap[1..];
      AtConcat(s, i, [gap[0]], gap[1..]);
      GapSkipped(s, i + 1, gap[1..]);
    }
  }

  lemma {:induction false} GapFound(s: Text, i: nat) returns (gap: Text)
    requires i <= |s|
    ensures IsGap(gap) && At(s, i, gap) && SkipSpace(s, i) == i + |gap|
    decreases |s| - i
  {
    if IsSpace(Peek(s, i)) {
      var more := GapFound(s, i + 1);
      gap := [s[i]] + more;
      AtConcat(s, i, [s[i]], more);
      AtByte(s, i, s[i]);
    } else {
      gap := [];
    }
  }

  /** How a value begins. */
  predicate Starts(c: byte) {
    c == 34 || c == 45 || 48 <= c <= 57 || c == 91 || c == 102 || c == 110 || c == 116 || c == 123
  }

  lemma TreeStarts(t: Tree, big: TooBig)
    requires Proper(t, big)
    ensures TreeText(t) != [] && Starts(TreeText(t)[0])
  {
    hide Spelled, Meant;
  }

  /** A character that may follow a value: white space, a comma, a closing bracket or the end. */
  predicate Closes(c: byte) {
    c == 32 || c == 9 || c == 10 || c == 13 || c == 44 || c == 93 || c == 125 || c == 0
  }

  // ---------------------------------------------------------------------------------------------
  // A text of the grammar is read as its tree
  // ---------------------------------------------------------------------------------------------

  lemma {:induction false} NameMatches(s: Text, i: nat, name: Text)
    requires 0 !in name && i <= |s| && At(s, i, name)
    ensures MatchName(s, i, name) == (true, i + |name|)
    decreases |name|
  {
    if name != [] {
      assert name == [name[0]] + name[1..];
      AtConcat(s, i, [name[0]], name[1..]);
      AtByte(s, i, name[0]);
      NameMatches(s, i + 1, name[1..]);
    }
  }

  lemma WordReads(s: Text, i: nat, first: byte, tail: Text, event: Event)
    requires 0 !in tail && At(s, i, [first] + tail)
    ensures i < |s| && s[i] == first && ParseName(s, i, tail, event) == Ok([event], i + 1 + |tail|)
  {
    AtConcat(s, i, [first], tail);
    AtByte(s, i, first);
    NameMatches(s, i + 1, tail);
  }

  lemma ScalarReads(s: Text, i: nat, t: Tree, big: TooBig)
    requires t.NullTree? || t.BoolTree? || t.NumberTree? || t.StringTree?
    requires Proper(t, big) && At(s, i, TreeText(t)) && Closes(Peek(s, i + |TreeText(t)|))
    ensures JsonGrammar.Value(s, i, big) == Ok(TreeEvents(t), i + |TreeText(t)|)
  {
    hide ParseNumber, ParseString, ParseName, JsonGrammar.ParseObject, JsonGrammar.ParseArray, NumeralText, StringText, Meant;
    match t
    case NullTree =>
      assert [110, 117, 108, 108] == [110] + JsonGrammar.NULL_TAIL;
      WordReads(s, i, 110, JsonGrammar.NULL_TAIL, Null);
    case BoolTree(b) =>
      if b {
        assert [116, 114, 117, 101] == [116] + JsonGrammar.TRUE_TAIL;
        WordReads(s, i, 116, JsonGrammar.TRUE_TAIL, Bool(true));
      } else {
        assert [102, 97, 108, 115, 101] == [102] + JsonGrammar.FALSE_TAIL;
        WordReads(s, i, 102, JsonGrammar.FALSE_TAIL, Bool(false));
      }
    case NumberTree(n) => NumeralReads(s, i, n, big);
    case StringTree(pieces) => StringReads(s, i, pieces);
  }

  lemma {:induction false} TreeReads(s: Text, i: nat, t: Tree, big: TooBig)
    requires Proper(t, big) && At(s, i, TreeText(t)) && Closes(Peek(s, i + |TreeText(t)|))
    ensures i <= |s| && JsonGrammar.Value(s, i, big) == Ok(TreeEvents(t), i + |TreeText(t)|)
    decreases t, 0
  {
    hide JsonGrammar.Value, TreeText, TreeEvents, Proper;
    match t
    case EmptyArray(gap) => EmptyArrayReads(s, i, gap, big);
    case EmptyObject(gap) => EmptyObjectReads(s, i, gap, big);
    case ArrayTree(items) => ArrayReads(s, i, items, big);
    case ObjectTree(fields) => ObjectReads(s, i, fields, big);
    case _ => ScalarReads(s, i, t, big);
  }

  lemma EmptyArrayReads(s: Text, i: nat, gap: Text, big: TooBig)
    requires Proper(EmptyArray(gap), big) && At(s, i, TreeText(EmptyArray(gap)))
    ensures i <= |s| && JsonGrammar.Value(s, i, big) == Ok(TreeEvents(EmptyArray(gap)), i + |TreeText(EmptyArray(gap))|)
  {
    Opened(s, i, 91, gap, 93);
  }

  lemma EmptyObjectReads(s: Text, i: nat, gap: Text, big: TooBig)
    requires Proper(EmptyObject(gap), big) && At(s, i, TreeText(EmptyObject(gap)))
    ensures i <= |s| && JsonGrammar.Value(s, i, big) == Ok(TreeEvents(EmptyObject(gap)), i + |TreeText(EmptyObject(gap))|)
  {
    Opened(s, i, 123, gap, 125);
  }

  /** A bracket, a gap, and what follows it. */
  lemma Opened(s: Text, i: nat, open: byte, gap: Text, next: byte)
    requires IsGap(gap) && !IsSpace(next) && At(s, i, [open] + (gap + [next]))
    ensures i < |s| && s[i] == open && i + 1 + |gap| < |s| && s[i + 1 + |gap|] == next && SkipSpace(s, i + 1) == i + 1 + |gap|
  {
    AtConcat(s, i, [open], gap + [next]);
    AtConcat(s, i + 1, gap, [next]);
    AtByte(s, i, open);
    AtByte(s, i + 1 + |gap|, next);
    GapSkipped(s, i + 1, gap);
  }

  /** A gap in front of a part of the text. */
  lemma GapBefore(s: Text, i: nat, gap: Text, part: Text)
    requires i <= |s| && IsGap(gap) && At(s, i, gap + part) && part != [] && !IsSpace(part[0])
    ensures SkipSpace(s, i) == i + |gap| && At(s, i + |gap|, part) && i + |gap| < |s| && s[i + |gap|] == part[0]
  {
    AtConcat(s, i, gap, part);
    AtIndex(s, i + |gap|, part, 0);
    GapSkipped(s, i, gap);
  }

  /** A value and the gap behind it, with something else behind that. */
  lemma {:induction false} ValueAndGap(s: Text, i: nat, t: Tree, after: Text, next: byte, big: TooBig)
    requires i <= |s| && Proper(t, big) && IsGap(after) && At(s, i, TreeText(t) + after) && Peek(s, i + |TreeText(t) + after|) == next
    requires next == 44 || next == 93 || next == 125 || next == 0
    ensures var end := i + |TreeText(t)|;
            JsonGrammar.Value(s, i, big) == Ok(TreeEvents(t), end) && SkipSpace(s, end) == end + |after|
    decreases t, 1
  {
    hide JsonGrammar.Value, TreeText, TreeEvents, Proper, At;
    var end := i + |TreeText(t)|;
    AtConcat(s, i, TreeText(t), after);
    AtInside(s, i, TreeText(t));
    AtInside(s, end, after);
    if after != [] { AtIndex(s, end, after, 0); }
    TreeReads(s, i, t, big);
    GapSkipped(s, end, after);
  }

  // Arrays

  /** What is behind an item. */
  ghost function ItemsTail(items: seq<Item>, k: nat): (r: Text)
    requires k < |items|
    ensures r != [] && r[0] == if k + 1 == |items| then 93 else 44
  {
    if k + 1 == |items| then [93] else [44] + ItemsText(items, k + 1)
  }

  lemma ItemsStep(items: seq<Item>, k: nat)
    requires k < |items|
    ensures ItemsText(items, k) == ItemText(items[k]) + ItemsTail(items, k)
    ensures ItemsEvents(items, k) == TreeEvents(items[k].tree) + ItemsEvents(items, k + 1)
  {
  }

  lemma ItemsLast(items: seq<Item>)
    ensures ItemsEvents(items, |items|) == [EndArray(|items| % 0x1_0000_0000)]
  {
  }

  /** An item: the position of its value, its events, and the position behind it. */
  lemma {:induction false} ItemReads(s: Text, i: nat, x: Item, tail: Text, big: TooBig)
    requires i <= |s| && ProperItem(x, big) && At(s, i, ItemText(x) + tail) && tail != [] && (tail[0] == 44 || tail[0] == 93)
    ensures var j := SkipSpace(s, i);
            && j < |s| && Starts(s[j]) && JsonGrammar.Value(s, j, big).Ok? && JsonGrammar.Value(s, j, big).events == TreeEvents(x.tree)
            && SkipSpace(s, JsonGrammar.Value(s, j, big).next) == i + |ItemText(x)|
    ensures At(s, i + |ItemText(x)|, tail)
    decreases x, 2
  {
    hide JsonGrammar.Value, TreeText, TreeEvents, Proper, At, SkipSpace, IsGap;
    var t := TreeText(x.tree);
    AtConcat(s, i, ItemText(x), tail);
    AtConcat(s, i + |x.before|, t, x.after);
    TreeStarts(x.tree, big);
    GapBefore(s, i, x.before, t + x.after);
    AtIndex(s, i + |ItemText(x)|, tail, 0);
    AtInside(s, i + |ItemText(x)|, tail);
    ValueAndGap(s, i + |x.before|, x.tree, x.after, tail[0], big);
  }

  lemma {:induction false} ItemsRead(s: Text, i: nat, items: seq<Item>, k: nat, big: TooBig)
    requires i <= |s| && k < |items| && AllItems(items, big) && At(s, i, ItemsText(items, k))
    ensures var j := SkipSpace(s, i);
            && j < |s| && Starts(s[j]) && JsonGrammar.Elements(s, j, k, big) == Ok(ItemsEvents(items, k), i + |ItemsText(items, k)|)
    decreases items, |items| - k
  {
    hide JsonGrammar.Value, ItemText, TreeEvents, ProperItem, At, SkipSpace, ItemsText, ItemsEvents;
    var x, tail := items[k], ItemsTail(items, k);
    ItemsStep(items, k);
    ItemReads(s, i, x, tail, big);
    var j, end := SkipSpace(s, i), i + |ItemText(x)|;
    AtInside(s, end, tail);
    AtIndex(s, end, tail, 0);
    if k + 1 == |items| {
      ItemsLast(items);
      assert JsonGrammar.AfterElement(s, end, k + 1, big) == Ok([EndArray(|items| % 0x1_0000_0000)], end + 1);
    } else {
      AtConcat(s, end, [44], ItemsText(items, k + 1));
      AtInside(s, end, [44]);
      ItemsRead(s, end + 1, items, k + 1, big);
    }
  }

  lemma {:induction false} ArrayReads(s: Text, i: nat, items: seq<Item>, big: TooBig)
    requires Proper(ArrayTree(items), big) && At(s, i, TreeText(ArrayTree(items)))
    ensures i <= |s| && JsonGrammar.Value(s, i, big) == Ok(TreeEvents(ArrayTree(items)), i + |TreeText(ArrayTree(items))|)
    decreases items, |items| + 1
  {
    hide JsonGrammar.Elements, At, SkipSpace, ItemsText, ItemsEvents, ProperItem;
    AtConcat(s, i, [91], ItemsText(items, 0));
    AtByte(s, i, 91);
    ItemsRead(s, i + 1, items, 0, big);
  }

  // Objects

  ghost function FieldsTail(fields: seq<Field>, k: nat): (r: Text)
    requires k < |fields|
    ensures r != [] && r[0] == if k + 1 == |fields| then 125 else 44
  {
    if k + 1 == |fields| then [125] else [44] + FieldsText(fields, k + 1)
  }

  lemma FieldsStep(fields: seq<Field>, k: nat)
    requires k < |fields|
    ensures FieldsText(fields, k) == FieldText(fields[k]) + FieldsTail(fields, k)
    ensures FieldsEvents(fields, k) == [Key(NameValue(fields[k].name))] + TreeEvents(fields[k].tree) + FieldsEvents(fields, k + 1)
  {
  }

  lemma FieldsLast(fields: seq<Field>)
    ensures FieldsEvents(fields, |fields|) == [EndObject(|fields| % 0x1_0000_0000)]
  {
  }

  /** What follows the name of a field. */
  ghost function ColonText(f: Field): (r: Text) {
    [58] + (f.beforeValue + (TreeText(f.tree) + f.after))
  }

  /** The colon, the value and the gaps around them. */
  lemma {:induction false} ColonReads(s: Text, i: nat, f: Field, tail: Text, big: TooBig)
    requires i <= |s| && ProperField(f, big) && At(s, i, ColonText(f) + tail) && tail != [] && (tail[0] == 44 || tail[0] == 125)
    ensures JsonGrammar.AfterName(s, i, big) == Ok(TreeEvents(f.tree), i + |ColonText(f)|) && At(s, i + |ColonText(f)|, tail)
    decreases f, 2
  {
    hide JsonGrammar.Value, TreeText, TreeEvents, Proper, At, SkipSpace, IsGap, GoodName;
    var t := TreeText(f.tree);
    AtConcat(s, i, ColonText(f), tail);
    AtConcat(s, i, [58], f.beforeValue + (t + f.after));
    AtByte(s, i, 58);
    AtConcat(s, i + 1 + |f.beforeValue|, t, f.after);
    TreeStarts(f.tree, big);
    GapBefore(s, i + 1, f.beforeValue, t + f.after);
    AtIndex(s, i + |ColonText(f)|, tail, 0);
    AtInside(s, i + |ColonText(f)|, tail);
    ValueAndGap(s, i + 1 + |f.beforeValue|, f.tree, f.after, tail[0], big);
  }

  lemma FieldParts(f: Field, tail: Text)
    ensures FieldText(f) + tail == f.before + (NameText(f.name) + (f.afterName + (ColonText(f) + tail)))
    ensures |FieldText(f)| == |f.before| + |NameText(f.name)| + |f.afterName| + |ColonText(f)|
  {
    hide TreeText, NameText;
    var colon := ColonText(f);
    assert FieldText(f) == f.before + (NameText(f.name) + (f.afterName + colon));
    Regroup(f.before, NameText(f.name), f.afterName, colon, tail);
  }

  lemma Regroup(a: Text, b: Text, c: Text, d: Text, e: Text)
    ensures (a + (b + (c + d))) + e == a + (b + (c + (d + e)))
  {
  }

  lemma {:induction false} FieldReads(s: Text, i: nat, f: Field, tail: Text, big: TooBig)
    requires i <= |s| && ProperField(f, big) && At(s, i, FieldText(f) + tail) && tail != [] && (tail[0] == 44 || tail[0] == 125)
    ensures var j := SkipSpace(s, i);
            j < |s| && s[j] == 34 && JsonGrammar.Member(s, j, big) == Ok([Key(NameValue(f.name))] + TreeEvents(f.tree), i + |FieldText(f)|)
    ensures At(s, i + |FieldText(f)|, tail)
    decreases f, 3
  {
    hide JsonGrammar.AfterName, TreeText, TreeEvents, Proper, At, SkipSpace, IsGap, FieldText, ColonText, StringText, Meant, ParseString;
    var name := NameText(f.name);
    FieldParts(f, tail);
    NameStarts(f.name);
    ColonStarts(f, tail);
    var rest := f.afterName + (ColonText(f) + tail);
    GapBefore(s, i, f.before, name + rest);
    var j := i + |f.before|;
    AtConcat(s, j, name, rest);
    StringReads(s, j, f.name);
    AtInside(s, j, name);
    GapBefore(s, j + |name|, f.afterName, ColonText(f) + tail);
    ColonReads(s, j + |name| + |f.afterName|, f, tail, big);
  }

  lemma NameStarts(pieces: seq<Piece>)
    requires AllWellSpelled(pieces)
    ensures NameText(pieces) != [] && NameText(pieces)[0] == 34
  {
  }

  lemma ColonStarts(f: Field, tail: Text)
    ensures ColonText(f) + tail != [] && (ColonText(f) + tail)[0] == 58
  {
  }

  lemma {:induction false} FieldsRead(s: Text, i: nat, fields: seq<Field>, k: nat, big: TooBig)
    requires i <= |s| && k < |fields| && AllFields(fields, big) && At(s, i, FieldsText(fields, k))
    ensures var j := SkipSpace(s, i);
            && j < |s| && s[j] == 34 && JsonGrammar.Members(s, j, k, big) == Ok(FieldsEvents(fields, k), i + |FieldsText(fields, k)|)
    decreases fields, |fields| - k
  {
    hide JsonGrammar.Member, FieldText, TreeEvents, ProperField, At, SkipSpace, FieldsText, FieldsEvents;
    var f, tail := fields[k], FieldsTail(fields, k);
    FieldsStep(fields, k);
    FieldReads(s, i, f, tail, big);
    var j, end := SkipSpace(s, i), i + |FieldText(f)|;
    AtInside(s, end, tail);
    AtIndex(s, end, tail, 0);
    if k + 1 == |fields| {
      FieldsLast(fields);
      assert JsonGrammar.AfterMember(s, end, k + 1, big) == Ok([EndObject(|fields| % 0x1_0000_0000)], end + 1);
    } else {
      AtConcat(s, end, [44], FieldsText(fields, k + 1));
      AtInside(s, end, [44]);
      FieldsRead(s, end + 1, fields, k + 1, big);
    }
  }

  lemma {:induction false} ObjectReads(s: Text, i: nat, fields: seq<Field>, big: TooBig)
    requires Proper(ObjectTree(fields), big) && At(s, i, TreeText(ObjectTree(fields)))
    ensures i <= |s| && JsonGrammar.Value(s, i, big) == Ok(TreeEvents(ObjectTree(fields)), i + |TreeText(ObjectTree(fields))|)
    decreases fields, |fields| + 1
  {
    hide JsonGrammar.Members, At, SkipSpace, FieldsText, FieldsEvents, ProperField;
    AtConcat(s, i, [123], FieldsText(fields, 0));
    AtByte(s, i, 123);
    FieldsRead(s, i + 1, fields, 0, big);
  }

  // ---------------------------------------------------------------------------------------------
  // Whatever is read is a text of the grammar
  // ---------------------------------------------------------------------------------------------

  lemma {:induction false} NameMatched(s: Text, i: nat, name: Text)
    requires 0 !in name && i <= |s| && MatchName(s, i, name).0
    ensures At(s, i, name)
    decreases |name|
  {
    if name != [] {
      NameMatched(s, i + 1, name[1..]);
      assert name == [name[0]] + name[1..];
      AtByte(s, i, name[0]);
      AtConcat(s, i, [name[0]], name[1..]);
    }
  }

  lemma WordFound(s: Text, i: nat, first: byte, tail: Text, event: Event)
    requires 0 !in tail && i < |s| && s[i] == first && ParseName(s, i, tail, event).Ok?
    ensures At(s, i, [first] + tail) && ParseName(s, i, tail, event) == Ok([event], i + |[first] + tail|)
  {
    NameMatched(s, i + 1, tail);
    AtByte(s, i, first);
    AtConcat(s, i, [first], tail);
  }

  /** The tree that was read at a position. */
  ghost predicate ReadAs(s: Text, i: nat, t: Tree, r: Outcome, big: TooBig) {
    Proper(t, big) && At(s, i, TreeText(t)) && r == Ok(TreeEvents(t), i + |TreeText(t)|)
  }

  lemma ScalarFound(s: Text, i: nat, big: TooBig) returns (t: Tree)
    requires i <= |s| && JsonGrammar.Scalar(s, i, big).Ok?
    ensures ReadAs(s, i, t, JsonGrammar.Scalar(s, i, big), big)
  {
    hide ParseNumber, ParseString, ParseName, NumeralText, StringText, Meant, At;
    var c := Peek(s, i);
    if c == 110 {
      assert [110, 117, 108, 108] == [110] + JsonGrammar.NULL_TAIL;
      WordFound(s, i, 110, JsonGrammar.NULL_TAIL, Null);
      t := NullTree;
    } else if c == 116 {
      assert [116, 114, 117, 101] == [116] + JsonGrammar.TRUE_TAIL;
      WordFound(s, i, 116, JsonGrammar.TRUE_TAIL, Bool(true));
      t := BoolTree(true);
    } else if c == 102 {
      assert [102, 97, 108, 115, 101] == [102] + JsonGrammar.FALSE_TAIL;
      WordFound(s, i, 102, JsonGrammar.FALSE_TAIL, Bool(false));
      t := BoolTree(false);
    } else if c == 34 {
      var pieces := StringSpelled(s, i);
      t := StringTree(pieces);
      CountFits(s, i);
    } else {
      var n := NumeralWritten(s, i, big);
      t := NumberTree(n);
    }
  }

  lemma CountFits(s: Text, i: nat)
    requires i < |s| && ParseString(s, i).StringOk?
    ensures |ParseString(s, i).value| + 1 < 0x1_0000_0000
  {
  }

  lemma {:induction false} TreeFound(s: Text, i: nat, big: TooBig) returns (t: Tree)
    requires i <= |s| && JsonGrammar.Value(s, i, big).Ok?
    ensures ReadAs(s, i, t, JsonGrammar.Value(s, i, big), big)
    decreases |s| - i, 2
  {
    hide JsonGrammar.Scalar, JsonGrammar.ParseObject, JsonGrammar.ParseArray, ReadAs;
    var c := Peek(s, i);
    if c == 123 {
      t := ObjectFound(s, i, big);
    } else if c == 91 {
      t := ArrayFound(s, i, big);
    } else {
      t := ScalarFound(s, i, big);
    }
  }

  /** Items that were read from a gap on, after `count` others. */
  ghost predicate ItemsAs(s: Text, i: nat, items: seq<Item>, count: nat, r: Outcome, big: TooBig) {
    && items != [] && AllItems(items, big) && At(s, i, ItemsText(items, 0))
    && r == Ok(EventsBehind(items, 0, count), i + |ItemsText(items, 0)|)
  }

  /** The events of items from index k on when `count` others came before the first. */
  ghost function EventsBehind(items: seq<Item>, k: nat, count: nat): (r: seq<Event>)
    requires k <= |items|
    decreases items, |items| - k
  {
    if k == |items| then [EndArray((count + |items|) % 0x1_0000_0000)] else TreeEvents(items[k].tree) + EventsBehind(items, k + 1, count)
  }

  lemma {:induction false} NothingBehind(items: seq<Item>, k: nat)
    requires k <= |items|
    ensures EventsBehind(items, k, 0) == ItemsEvents(items, k)
    decreases |items| - k
  {
    hide TreeEvents;
    if k < |items| { NothingBehind(items, k + 1); }
  }

  /** One more item in front. */
  lemma {:induction false} ItemsShift(x: Item, more: seq<Item>, k: nat, count: nat)
    requires k <= |more|
    ensures ItemsText([x] + more, k + 1) == ItemsText(more, k)
    ensures EventsBehind([x] + more, k + 1, count) == EventsBehind(more, k, count + 1)
    decreases |more| - k
  {
    hide TreeEvents, ItemText;
    if k < |more| { ItemsShift(x, more, k + 1, count); }
  }

  lemma {:induction false} ArrayFound(s: Text, i: nat, big: TooBig) returns (t: Tree)
    requires i < |s| && s[i] == 91 && JsonGrammar.ParseArray(s, i, big).Ok?
    ensures ReadAs(s, i, t, JsonGrammar.ParseArray(s, i, big), big)
    decreases |s| - i, 1
  {
    hide JsonGrammar.Elements, At, ItemsText, EventsBehind, ItemsEvents;
    var gap := GapFound(s, i + 1);
    var j := SkipSpace(s, i + 1);
    AtByte(s, i, 91);
    if Peek(s, j) == 93 {
      t := EmptyArray(gap);
      AtByte(s, j, 93);
      AtConcat(s, i + 1, gap, [93]);
      AtConcat(s, i, [91], gap + [93]);
    } else {
      var items := ItemsFound(s, i + 1, gap, 0, big);
      t := ArrayTree(items);
      AtConcat(s, i, [91], ItemsText(items, 0));
      NothingBehind(items, 0);
      hide Proper, ProperItem;
      ItemsProper(items, big);
    }
  }

  lemma ItemsProper(items: seq<Item>, big: TooBig)
    requires items != [] && AllItems(items, big)
    ensures Proper(ArrayTree(items), big)
  {
  }

  lemma {:induction false} ItemsFound(s: Text, i: nat, before: Text, count: nat, big: TooBig) returns (items: seq<Item>)
    requires IsGap(before) && At(s, i, before) && i + |before| <= |s| && JsonGrammar.Elements(s, i + |before|, count, big).Ok?
    ensures ItemsAs(s, i, items, count, JsonGrammar.Elements(s, i + |before|, count, big), big)
    decreases |s| - i - |before|, 4
  {
    hide JsonGrammar.Value, JsonGrammar.AfterElement, At, ItemsText, EventsBehind, ItemsAs, TreeText, TreeEvents, Proper;
    var j := i + |before|;
    var v := JsonGrammar.Value(s, j, big);
    var t := TreeFound(s, j, big);
    var after := GapFound(s, v.next);
    var x := Item(before, t, after);
    AtConcat(s, j, TreeText(t), after);
    AtConcat(s, i, before, TreeText(t) + after);
    items := AfterFound(s, i, x, count, big);
  }

  /** What follows an item that was read. */
  lemma {:induction false} AfterFound(s: Text, i: nat, x: Item, count: nat, big: TooBig) returns (items: seq<Item>)
    requires ProperItem(x, big) && At(s, i, ItemText(x)) && i + |ItemText(x)| <= |s| && |ItemText(x)| > |x.before|
    requires JsonGrammar.AfterElement(s, i + |ItemText(x)|, count + 1, big).Ok?
    ensures ItemsAs(s, i, items, count, JsonGrammar.Prefix(TreeEvents(x.tree), JsonGrammar.AfterElement(s, i + |ItemText(x)|, count + 1, big)), big)
    decreases |s| - i - |x.before|, 3
  {
    hide JsonGrammar.Elements, At, ItemText, TreeEvents, ProperItem;
    var end := i + |ItemText(x)|;
    AtByte(s, end, s[end]);
    if s[end] == 44 {
      var gap := GapFound(s, end + 1);
      var more := ItemsFound(s, end + 1, gap, count + 1, big);
      items := [x] + more;
      ItemsShift(x, more, 0, count);
      AtConcat(s, end, [44], ItemsText(more, 0));
      AtConcat(s, i, ItemText(x), [44] + ItemsText(more, 0));
    } else {
      items := [x];
      AtConcat(s, i, ItemText(x), [93]);
      assert EventsBehind(items, 1, count) == [EndArray((count + 1) % 0x1_0000_0000)];
    }
  }

  /** Fields that were read from a gap on, after `count` others. */
  ghost predicate FieldsAs(s: Text, i: nat, fields: seq<Field>, count: nat, r: Outcome, big: TooBig) {
    && fields != [] && AllFields(fields, big) && At(s, i, FieldsText(fields, 0))
    && r == Ok(MembersBehind(fields, 0, count), i + |FieldsText(fields, 0)|)
  }

  ghost function MembersBehind(fields: seq<Field>, k: nat, count: nat): (r: seq<Event>)
    requires k <= |fields|
    decreases fields, |fields| - k
  {
    if k == |fields| then [EndObject((count + |fields|) % 0x1_0000_0000)]
    else [Key(NameValue(fields[k].name))] + TreeEvents(fields[k].tree) + MembersBehind(fields, k + 1, count)
  }

  lemma {:induction false} NoMemberBehind(fields: seq<Field>, k: nat)
    requires k <= |fields|
    ensures MembersBehind(fields, k, 0) == FieldsEvents(fields, k)
    decreases |fields| - k
  {
    hide TreeEvents;
    if k < |fields| { NoMemberBehind(fields, k + 1); }
  }

  lemma {:induction false} FieldsShift(f: Field, more: seq<Field>, k: nat)
    requires k <= |more|
    ensures FieldsText([f] + more, k + 1) == FieldsText(more, k)
    decreases |more| - k
  {
    hide FieldText, FieldsText;
    var all := [f] + more;
    FieldsTextIs(all, k + 1);
    FieldsTextIs(more, k);
    if k < |more| {
      assert all[k + 1] == more[k];
      FieldsShift(f, more, k + 1);
    }
  }

  lemma FieldsTextIs(fields: seq<Field>, k: nat)
    requires k <= |fields|
    ensures FieldsText(fields, k) ==
            if k == |fields| then [125]
            else FieldText(fields[k]) + if k + 1 == |fields| then [125] else [44] + FieldsText(fields, k + 1)
  {
  }

  lemma {:induction false} MembersShift(f: Field, more: seq<Field>, k: nat, count: nat)
    requires k <= |more|
    ensures MembersBehind([f] + more, k + 1, count) == MembersBehind(more, k, count + 1)
    decreases |more| - k
  {
    hide TreeEvents, NameValue;
    if k < |more| { MembersShift(f, more, k + 1, count); }
  }

  lemma {:induction false} ObjectFound(s: Text, i: nat, big: TooBig) returns (t: Tree)
    requires i < |s| && s[i] == 123 && JsonGrammar.ParseObject(s, i, big).Ok?
    ensures ReadAs(s, i, t, JsonGrammar.ParseObject(s, i, big), big)
    decreases |s| - i, 1
  {
    hide JsonGrammar.Members, At, FieldsText, MembersBehind, FieldsEvents;
    var gap := GapFound(s, i + 1);
    var j := SkipSpace(s, i + 1);
    AtByte(s, i, 123);
    if Peek(s, j) == 125 {
      t := EmptyObject(gap);
      AtByte(s, j, 125);
      AtConcat(s, i + 1, gap, [125]);
      AtConcat(s, i, [123], gap + [125]);
    } else {
      var fields := FieldsFound(s, i + 1, gap, 0, big);
      t := ObjectTree(fields);
      AtConcat(s, i, [123], FieldsText(fields, 0));
      NoMemberBehind(fields, 0);
      hide Proper, ProperField;
      FieldsProper(fields, big);
    }
  }

  lemma FieldsProper(fields: seq<Field>, big: TooBig)
    requires fields != [] && AllFields(fields, big)
    ensures Proper(ObjectTree(fields), big)
  {
  }

  /** The colon, the value and the gaps around them that were read. */
  lemma {:induction false} ColonFound(s: Text, i: nat, big: TooBig) returns (beforeValue: Text, t: Tree, after: Text)
    requires i <= |s| && JsonGrammar.AfterName(s, i, big).Ok?
    ensures IsGap(beforeValue) && IsGap(after) && Proper(t, big)
    ensures var text := [58] + (beforeValue + (TreeText(t) + after));
            At(s, i, text) && JsonGrammar.AfterName(s, i, big) == Ok(TreeEvents(t), i + |text|)
    decreases |s| - i, 3
  {
    hide JsonGrammar.Value, At, TreeText, TreeEvents, Proper;
    AtByte(s, i, 58);
    beforeValue := GapFound(s, i + 1);
    var j := i + 1 + |beforeValue|;
    t := TreeFound(s, j, big);
    after := GapFound(s, j + |TreeText(t)|);
    AtConcat(s, j, TreeText(t), after);
    AtConcat(s, i + 1, beforeValue, TreeText(t) + after);
    AtConcat(s, i, [58], beforeValue + (TreeText(t) + after));
  }

  /** One field that was read behind a gap. */
  lemma {:induction false} FieldFound(s: Text, i: nat, before: Text, big: TooBig) returns (f: Field)
    requires IsGap(before) && At(s, i, before) && i + |before| <= |s| && JsonGrammar.Member(s, i + |before|, big).Ok?
    ensures ProperField(f, big) && f.before == before && At(s, i, FieldText(f))
    ensures JsonGrammar.Member(s, i + |before|, big) == Ok([Key(NameValue(f.name))] + TreeEvents(f.tree), i + |FieldText(f)|)
    decreases |s| - i - |before|, 4
  {
    hide JsonGrammar.AfterName, At, TreeText, TreeEvents, Proper, ParseString, StringText, Meant, IsGap;
    var j := i + |before|;
    var name := StringSpelled(s, j);
    CountFits(s, j);
    var k := j + |StringText(name)|;
    var afterName := GapFound(s, k);
    var beforeValue, t, after := ColonFound(s, k + |afterName|, big);
    f := Field(before, name, afterName, beforeValue, t, after);
    var colon := [58] + (beforeValue + (TreeText(t) + after));
    AtConcat(s, k, afterName, colon);
    AtConcat(s, j, StringText(name), afterName + colon);
    AtConcat(s, i, before, StringText(name) + (afterName + colon));
  }

  lemma {:induction false} FieldsFound(s: Text, i: nat, before: Text, count: nat, big: TooBig) returns (fields: seq<Field>)
    requires IsGap(before) && At(s, i, before) && i + |before| <= |s| && JsonGrammar.Members(s, i + |before|, count, big).Ok?
    ensures FieldsAs(s, i, fields, count, JsonGrammar.Members(s, i + |before|, count, big), big)
    decreases |s| - i - |before|, 5
  {
    hide JsonGrammar.Member, JsonGrammar.AfterMember, At, FieldsAs, FieldText, TreeEvents, ProperField;
    var f := FieldFound(s, i, before, big);
    fields := AfterFieldFound(s, i, f, count, big);
  }

  lemma {:induction false} AfterFieldFound(s: Text, i: nat, f: Field, count: nat, big: TooBig) returns (fields: seq<Field>)
    requires ProperField(f, big) && At(s, i, FieldText(f)) && i + |FieldText(f)| <= |s| && |FieldText(f)| > |f.before|
    requires JsonGrammar.AfterMember(s, i + |FieldText(f)|, count + 1, big).Ok?
    ensures FieldsAs(s, i, fields, count,
                     JsonGrammar.Prefix([Key(NameValue(f.name))] + TreeEvents(f.tree), JsonGrammar.AfterMember(s, i + |FieldText(f)|, count + 1, big)), big)
    decreases |s| - i - |f.before|, 3
  {
    hide JsonGrammar.Members, At, FieldText, TreeEvents, ProperField, NameValue;
    var end := i + |FieldText(f)|;
    AtByte(s, end, s[end]);
    if s[end] == 44 {
      var gap := GapFound(s, end + 1);
      var more := FieldsFound(s, end + 1, gap, count + 1, big);
      fields := [f] + more;
      FieldsShift(f, more, 0);
      MembersShift(f, more, 0, count);
      AtConcat(s, end, [44], FieldsText(more, 0));
      AtConcat(s, i, FieldText(f), [44] + FieldsText(more, 0));
    } else {
      fields := [f];
      AtConcat(s, i, FieldText(f), [125]);
      assert MembersBehind(fields, 1, count) == [EndObject((count + 1) % 0x1_0000_0000)];
    }
  }

  // ---------------------------------------------------------------------------------------------
  // Documents
  // ---------------------------------------------------------------------------------------------

  /** A value with white space around it, up to the end of the text or a NUL. */
  ghost predicate IsDocument(s: Text, before: Text, t: Tree, after: Text, big: TooBig) {
    var text := before + (TreeText(t) + after);
    IsGap(before) && IsGap(after) && Proper(t, big) && text <= s && Peek(s, |text|) == 0
  }

  /** A text of the grammar is read as its tree, whatever its white space and its spelling. */
  lemma DocumentReads(s: Text, before: Text, t: Tree, after: Text, big: TooBig)
    requires IsDocument(s, before, t, after, big)
    ensures JsonGrammar.Document(s, big) == Ok(TreeEvents(t), |before + (TreeText(t) + after)|)
  {
    hide JsonGrammar.Value, TreeText, TreeEvents, Proper, SkipSpace, IsGap;
    var text := before + (TreeText(t) + after);
    assert s[0..|text|] == text;
    TreeStarts(t, big);
    GapBefore(s, 0, before, TreeText(t) + after);
    ValueAndGap(s, |before|, t, after, 0, big);
  }

  /** And whatever is read is such a text. */
  lemma DocumentFound(s: Text, big: TooBig) returns (before: Text, t: Tree, after: Text)
    requires JsonGrammar.Document(s, big).Ok?
    ensures IsDocument(s, before, t, after, big) && JsonGrammar.Document(s, big) == Ok(TreeEvents(t), |before + (TreeText(t) + after)|)
  {
    hide JsonGrammar.Value, TreeText, TreeEvents, Proper, At;
    before := GapFound(s, 0);
    t := TreeFound(s, |before|, big);
    after := GapFound(s, |before| + |TreeText(t)|);
    AtConcat(s, |before|, TreeText(t), after);
    AtConcat(s, 0, before, TreeText(t) + after);
    PrefixAt(s, before + (TreeText(t) + after));
  }

  lemma PrefixAt(s: Text, text: Text)
    requires At(s, 0, text)
    ensures text <= s
  {
  }
}
