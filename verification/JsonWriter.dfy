/**
  The writer of writer.h, an object that puts one event after the other on its output, and the traversal of document.h
  that sends it the events of a value. What the writer asserts of its callers are its preconditions.
 */
module JsonWriter {
  import opened Wrappers
  import opened Bytes
  import opened JsonSyntax
  import opened JsonDom
  import opened JsonPrint
  import opened JsonBuffer
  import JsonAutomaton
  import JsonGrammar

  /** An array or object that is open: how many values (names included) it has so far. */
  datatype Level = Level(valueCount: nat, inArray: bool)

  /** What goes before the next value. */
  function Separator(levels: seq<Level>): (r: Text) {
    if levels == [] || levels[|levels| - 1].valueCount == 0 then []
    else if levels[|levels| - 1].inArray || levels[|levels| - 1].valueCount % 2 == 0 then [',' as int]
    else [':' as int]
  }

  /** The levels after one more value in the innermost. */
  function Counted(levels: seq<Level>): (r: seq<Level>)
    ensures |r| == |levels|
  {
    if levels == [] then []
    else var top := levels[|levels| - 1];
      levels[..|levels| - 1] + [Level(top.valueCount + 1, top.inArray)]
  }

  // ---------------------------------------------------------------------------------------------
  // The writer
  // ---------------------------------------------------------------------------------------------

  class Writer {
    var out: Text // what is in the buffer
    var capacity: nat
    var levels: seq<Level>
    var hasRoot: bool

    constructor ()
      ensures out == [] && capacity == 0 && levels == [] && !hasRoot
    {
      out, capacity, levels, hasRoot := [], 0, [], false;
    }

    /** A value may come here: there is a single root, and every other value of an object is a string. */
    predicate Ready(isString: bool)
      reads this
    {
      && |out| <= capacity
      && if levels == [] then !hasRoot
         else levels[|levels| - 1].inArray || levels[|levels| - 1].valueCount % 2 == 1 || isString
    }

    /** The buffer behind the writer. */
    ghost function Extent(): (r: Extent)
      reads this
    {
      JsonBuffer.Extent(|out|, capacity)
    }

    /** A separator goes before the next value. */
    ghost predicate Separates()
      reads this
    {
      Separator(levels) != []
    }

    /** A value has been put, `text` being its text and `taken` the buffer with it. */
    twostate predicate Wrote(text: Text, taken: Option<Room>)
      reads this
    {
      && |out| <= capacity && taken == Some(Extent()) && out == old(out) + Separator(old(levels)) + text
      && levels == Counted(old(levels)) && hasRoot == (old(hasRoot) || old(levels) == [])
    }

    /** Stack::Reserve. */
    method Reserve(count: nat)
      requires |out| <= capacity
      modifies this`capacity
      ensures capacity == Reserved(old(capacity), |out|, count)
    {
      if count > capacity - |out| {
        var newCapacity := INITIAL_CAPACITY;
        if capacity != 0 {
          newCapacity := capacity + (capacity + 1) / 2;
        }
        if newCapacity < |out| + count {
          newCapacity := |out| + count;
        }
        capacity := newCapacity;
      }
    }

    /** PutUnsafe, which relies on room having been reserved. */
    method PutUnsafe(c: byte)
      requires |out| < capacity
      modifies this`out
      ensures out == old(out) + [c]
    {
      out := out + [c];
    }

    method Put(c: byte)
      requires |out| <= capacity
      modifies this`out, this`capacity
      ensures |out| <= capacity && out == old(out) + [c] && Extent() == Take(old(Extent()), 1, 1)
    {
      Reserve(1);
      PutUnsafe(c);
    }

    /** Room is reserved for a text of known length, and the text put into it. */
    method PutText(text: Text)
      requires |out| <= capacity
      modifies this`out, this`capacity
      ensures |out| <= capacity && out == old(out) + text && Extent() == Take(old(Extent()), |text|, |text|)
    {
      PutWithin(text, |text|);
    }

    /** Room for `count` characters is reserved, and a text put into it. */
    method PutWithin(text: Text, count: nat)
      requires |out| <= capacity && |text| <= count
      modifies this`out, this`capacity
      ensures |out| <= capacity && out == old(out) + text && Extent() == Take(old(Extent()), count, |text|)
    {
      Reserve(count);
      ghost var reserved := capacity;
      var k: nat := 0;
      while k < |text|
        invariant k <= |text| && out == old(out) + text[..k] && |old(out)| + |text| <= capacity == reserved
      {
        PutUnsafe(text[k]);
        assert text[..k + 1] == text[..k] + [text[k]];
        k := k + 1;
      }
      assert text[..k] == text;
    }

    method Prefix(ghost isString: bool)
      requires Ready(isString)
      modifies this
      ensures Wrote([], Some(Separated(old(Extent()), old(Separates()))))
    {
      if |levels| != 0 {
        var top := levels[|levels| - 1];
        if top.valueCount > 0 {
          if top.inArray {
            Put(',' as int);
          } else {
            Put(if top.valueCount % 2 == 0 then ',' as int else ':' as int);
          }
        }
        levels := levels[..|levels| - 1] + [Level(top.valueCount + 1, top.inArray)];
      } else {
        hasRoot := true;
      }
    }

    method Null()
      requires Ready(false)
      modifies this
      ensures Wrote(NULL_TEXT, Taken(NullValue, old(Separates()), old(Extent())))
    {
      Prefix(false);
      PutText(NULL_TEXT);
    }

    method Bool(b: bool)
      requires Ready(false)
      modifies this
      ensures Wrote(if b then TRUE_TEXT else FALSE_TEXT, Taken(BoolValue(b), old(Separates()), old(Extent())))
    {
      Prefix(false);
      PutText(if b then TRUE_TEXT else FALSE_TEXT);
    }

    /** Int, Uint, Int64 and Uint64, which differ in the room that they push and then pop what they do not need of it. */
    method Integer(v: int, room: nat)
      requires Ready(false) && |PrintInteger(v)| <= room
      modifies this
      ensures Wrote(PrintInteger(v), Some(Take(Separated(old(Extent()), old(Separates())), room, |PrintInteger(v)|)))
    {
      hide PrintInteger;
      Prefix(false);
      PutWithin(PrintInteger(v), room);
    }

    /** WriteString: room is reserved once for the whole string, and a loop over its characters relies on it. */
    method WriteString(str: Text)
      requires |out| <= capacity && Fits(capacity, |out|, str)
      modifies this`out, this`capacity
      ensures |out| <= capacity && out == old(out) + Quoted(str) && capacity == old(Reserved(capacity, |out|, Reservation(|str|)))
    {
      hide Escaped;
      Reserve((2 + |str| * 6) % TWO32);
      ghost var reserved := capacity;
      PutUnsafe('"' as int);
      ghost var whole := out + EscapedFrom(str, 0);
      var k: nat := 0;
      while k < |str|
        invariant k <= |str| && out + EscapedFrom(str, k) == whole && |whole| < capacity == reserved
      {
        assert out + (Escaped(str[k]) + EscapedFrom(str, k + 1)) == out + Escaped(str[k]) + EscapedFrom(str, k + 1);
        WriteCharacter(str[k]);
        k := k + 1;
      }
      assert out == whole;
      PutUnsafe('"' as int);
    }

    method WriteCharacter(c: byte)
      requires |out| + |Escaped(c)| <= capacity
      modifies this`out
      ensures out == old(out) + Escaped(c)
    {
      var e := EscapeLetter(c);
      if e != 0 {
        PutUnsafe('\\' as int);
        PutUnsafe(e);
        if e == 'u' as int {
          PutUnsafe('0' as int);
          PutUnsafe('0' as int);
          PutUnsafe(HexChar(c / 16));
          PutUnsafe(HexChar(c % 16));
        }
      } else {
        PutUnsafe(c);
      }
    }

    /** String and Key. */
    method String(str: Text)
      requires Ready(true) && StringTaken(str, Separated(Extent(), Separates())).Some?
      modifies this
      ensures Wrote(Quoted(str), StringTaken(str, Separated(old(Extent()), old(Separates()))))
    {
      hide Quoted;
      Prefix(true);
      WriteString(str);
    }

    method Start(inArray: bool)
      requires Ready(false)
      modifies this
      ensures |out| <= capacity && out == old(out) + Separator(old(levels)) + [if inArray then '[' as int else '{' as int]
      ensures levels == Counted(old(levels)) + [Level(0, inArray)] && hasRoot == (old(hasRoot) || old(levels) == [])
      ensures Extent() == Take(Separated(old(Extent()), old(Separates())), 1, 1)
    {
      Prefix(false);
      levels := levels + [Level(0, inArray)];
      Put(if inArray then '[' as int else '{' as int);
    }

    method End(inArray: bool)
      requires |out| <= capacity && |levels| > 0 && levels[|levels| - 1].inArray == inArray
      requires !inArray ==> levels[|levels| - 1].valueCount % 2 == 0
      modifies this`out, this`capacity, this`levels
      ensures |out| <= capacity && out == old(out) + [if inArray then ']' as int else '}' as int]
      ensures levels == old(levels)[..|old(levels)| - 1] && Extent() == Take(old(Extent()), 1, 1)
    {
      levels := levels[..|levels| - 1];
      Put(if inArray then ']' as int else '}' as int);
    }
  }

  /** The event of a number goes to the writer. */
  method AcceptNumber(n: Number, w: Writer)
    requires JsonDom.Valid(NumberValue(n)) && w.Ready(false)
    modifies w
    ensures w.Wrote(Print(NumberValue(n)), Taken(NumberValue(n), old(w.Separates()), old(w.Extent())))
  {
    ghost var v: int :| -TWO63 <= v < TWO64 && n == JsonDom.Integer(v);
    NumberEventValue(v);
    IntegerOfInteger(v);
    IntegerFits(v, Separated(w.Extent(), w.Separates()));
    hide PrintInteger;
    w.Integer(NumberEvent(n).value, IntegerRoom(NumberEvent(n)));
  }

  /** Accept: a value goes to the writer, and with it its elements or members. */
  method Accept(v: Value, w: Writer)
    requires JsonDom.Valid(v) && w.Ready(v.StringValue?) && Taken(v, w.Separates(), w.Extent()).Some?
    modifies w
    ensures w.Wrote(Print(v), Taken(v, old(w.Separates()), old(w.Extent())))
    decreases v, 0
  {
    match v
    case NullValue => w.Null();
    case BoolValue(b) => w.Bool(b);
    case NumberValue(n) => AcceptNumber(n, w);
    case StringValue(str) => w.String(str);
    case ArrayValue(elements) => AcceptArray(elements, w);
    case ObjectValue(members) => AcceptObject(members, w);
  }

  /** AcceptArray's loop body: the text put so far and the text that is left stay the same together. */
  method AcceptElement(elements: seq<Value>, k: nat, w: Writer, ghost outer: seq<Level>)
    requires k < |elements| && JsonDom.Valid(elements[k]) && |w.out| <= w.capacity && w.levels == outer + [Level(k, true)]
    requires ElementsTaken(elements, k, w.Extent()).Some?
    modifies w
    ensures |w.out| <= w.capacity && ElementsTaken(elements, k + 1, w.Extent()) == ElementsTaken(elements, k, old(w.Extent()))
    ensures w.out + ElementsFrom(elements, k + 1) == old(w.out) + ElementsFrom(elements, k)
    ensures |w.out| <= w.capacity && w.levels == outer + [Level(k + 1, true)] && w.hasRoot == old(w.hasRoot)
    decreases elements, 0
  {
    hide Print, Taken;
    assert w.levels[|w.levels| - 1] == Level(k, true) && w.levels[..|w.levels| - 1] == outer;
    Accept(elements[k], w);
    ghost var before, sep, rest := old(w.out), if k > 0 then [',' as int] else [], ElementsFrom(elements, k + 1);
    assert before + sep + Print(elements[k]) + rest == before + (sep + Print(elements[k]) + rest);
  }

  method AcceptArray(elements: seq<Value>, w: Writer)
    requires JsonDom.Valid(ArrayValue(elements)) && w.Ready(false) && Taken(ArrayValue(elements), w.Separates(), w.Extent()).Some?
    modifies w
    ensures w.Wrote(Print(ArrayValue(elements)), Taken(ArrayValue(elements), old(w.Separates()), old(w.Extent())))
    decreases elements, 1
  {
    hide ElementsFrom, ElementsTaken, Take, Separated;
    ghost var outer := Counted(w.levels);
    ghost var start := w.out + Separator(w.levels);
    w.Start(true);
    ghost var whole := w.out + ElementsFrom(elements, 0);
    ghost var taken := ElementsTaken(elements, 0, w.Extent());
    ghost var rooted := w.hasRoot;
    var k: nat := 0;
    while k < |elements|
      invariant k <= |elements| && w.out + ElementsFrom(elements, k) == whole
      invariant |w.out| <= w.capacity && w.levels == outer + [Level(k, true)] && w.hasRoot == rooted
      invariant ElementsTaken(elements, k, w.Extent()) == taken
    {
      AcceptElement(elements, k, w, outer);
      k := k + 1;
    }
    NoElements(elements, w.Extent());
    assert w.levels[..|w.levels| - 1] == outer;
    w.End(true);
    Bracketed(start, '[' as int, ElementsFrom(elements, 0), ']' as int);
  }

  lemma NoElements(elements: seq<Value>, b: Room)
    ensures ElementsFrom(elements, |elements|) == [] && ElementsTaken(elements, |elements|, b) == Some(b)
  {
  }

  lemma NoMembers(members: seq<Member>, b: Room)
    ensures MembersFrom(members, |members|) == [] && MembersTaken(members, |members|, b) == Some(b)
  {
  }

  lemma Bracketed(start: Text, open: byte, body: Text, close: byte)
    ensures start + [open] + body + [] + [close] == start + ([open] + body + [close])
  {
  }

  /** AcceptObject's loop body: after the name a colon, and a comma before it unless it is the first. */
  method AcceptMember(members: seq<Member>, k: nat, w: Writer, ghost outer: seq<Level>)
    requires k < |members| && JsonDom.Valid(members[k].value)
    requires |w.out| <= w.capacity && w.levels == outer + [Level(2 * k, false)] && MembersTaken(members, k, w.Extent()).Some?
    modifies w
    ensures |w.out| <= w.capacity && MembersTaken(members, k + 1, w.Extent()) == MembersTaken(members, k, old(w.Extent()))
    ensures w.out + MembersFrom(members, k + 1) == old(w.out) + MembersFrom(members, k)
    ensures |w.out| <= w.capacity && w.levels == outer + [Level(2 * (k + 1), false)] && w.hasRoot == old(w.hasRoot)
    decreases members, 0
  {
    hide Print, Quoted, Taken, StringTaken, Separated;
    ghost var before, sep := w.out, if k > 0 then [',' as int] else [];
    ghost var q, p, rest := Quoted(members[k].name), Print(members[k].value), MembersFrom(members, k + 1);
    assert w.levels[|w.levels| - 1] == Level(2 * k, false) && w.levels[..|w.levels| - 1] == outer;
    w.String(members[k].name);
    assert w.levels == outer + [Level(2 * k + 1, false)];
    assert w.levels[|w.levels| - 1] == Level(2 * k + 1, false) && w.levels[..|w.levels| - 1] == outer;
    Accept(members[k].value, w);
    MemberStep(before, sep, q, p, rest);
  }

  lemma MemberStep(before: Text, sep: Text, name: Text, value: Text, rest: Text)
    ensures before + sep + name + [':' as int] + value + rest == before + (sep + name + [':' as int] + value + rest)
  {
  }

  method AcceptObject(members: seq<Member>, w: Writer)
    requires JsonDom.Valid(ObjectValue(members)) && w.Ready(false) && Taken(ObjectValue(members), w.Separates(), w.Extent()).Some?
    modifies w
    ensures w.Wrote(Print(ObjectValue(members)), Taken(ObjectValue(members), old(w.Separates()), old(w.Extent())))
    decreases members, 1
  {
    hide MembersFrom, MembersTaken, Take, Separated;
    ghost var outer := Counted(w.levels);
    ghost var start := w.out + Separator(w.levels);
    w.Start(false);
    ghost var whole := w.out + MembersFrom(members, 0);
    ghost var taken := MembersTaken(members, 0, w.Extent());
    ghost var rooted := w.hasRoot;
    var k: nat := 0;
    while k < |members|
      invariant k <= |members| && w.out + MembersFrom(members, k) == whole
      invariant |w.out| <= w.capacity && w.levels == outer + [Level(2 * k, false)] && w.hasRoot == rooted
      invariant MembersTaken(members, k, w.Extent()) == taken
    {
      AcceptMember(members, k, w, outer);
      k := k + 1;
    }
    NoMembers(members, w.Extent());
    assert w.levels[..|w.levels| - 1] == outer;
    w.End(false);
    Bracketed(start, '{' as int, MembersFrom(members, 0), '}' as int);
  }

  /** A fresh writer puts the text of a value, which either parser reads as that value. */
  method Stringify(v: Value) returns (text: Text)
    requires JsonDom.Valid(v) && Storable(v)
    ensures forall big :: JsonGrammar.Document(text, big) == JsonAutomaton.Iterate(text, big)
    ensures forall big :: JsonGrammar.Document(text, big).Ok? && Build([], JsonGrammar.Document(text, big).events) == Some([v])
  {
    hide *;
    text := WriteOut(v);
    forall big: TooBig
      ensures JsonGrammar.Document(text, big) == JsonAutomaton.Iterate(text, big)
      ensures JsonGrammar.Document(text, big).Ok? && Build([], JsonGrammar.Document(text, big).events) == Some([v])
    {
      RoundTrip(v, big);
      TextAgreed(v, big);
    }
  }

  method WriteOut(v: Value) returns (text: Text)
    requires JsonDom.Valid(v) && Storable(v)
    ensures text == Print(v)
  {
    var w := new Writer();
    Accept(v, w);
    text := w.out;
  }

  lemma TextAgreed(v: Value, big: TooBig)
    ensures JsonGrammar.Document(Print(v), big) == JsonAutomaton.Iterate(Print(v), big)
  {
    hide JsonGrammar.Document, JsonAutomaton.Iterate, Print;
    PrintStarts(v);
    NoSpace(Print(v), 0);
    JsonAutomaton.ParsersAgree(Print(v), big);
  }
}
