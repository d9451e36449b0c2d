/** The document object model of document.h: values, the events they generate, and the handler that builds them from events. */
module JsonDom {
  import opened Wrappers
  import opened JsonSyntax

  const TWO63 := 0x8000_0000_0000_0000
  const TWO64 := 0x1_0000_0000_0000_0000

  // ---------------------------------------------------------------------------------------------
  // Integers: 64 bits and flags that say as which types they may be read
  // ---------------------------------------------------------------------------------------------

  datatype Number = Number(bits: nat, isInt: bool, isUint: bool, isInt64: bool, isUint64: bool)

  function Signed(bits: nat, width: nat): (r: int)
    requires bits < width
  {
    if bits < width / 2 then bits else bits - width
  }

  predicate IsInt32(v: int) { -0x8000_0000 <= v < 0x8000_0000 }
  predicate IsUint32(v: int) { 0 <= v < TWO32 }
  predicate IsInt64Value(v: int) { -TWO63 <= v < TWO63 }
  predicate IsUint64Value(v: int) { 0 <= v < TWO64 }

  /** GenericValue(int). */
  function FromInt(i: int): (n: Number)
    requires IsInt32(i)
  {
    Number(if i >= 0 then i else i + TWO64, true, i >= 0, true, i >= 0)
  }

  /** GenericValue(unsigned). */
  function FromUint(u: int): (n: Number)
    requires IsUint32(u)
  {
    Number(u, u / 0x8000_0000 % 2 == 0, true, true, true)
  }

  /** GenericValue(int64_t). */
  function FromInt64(i: int): (n: Number)
    requires IsInt64Value(i)
  {
    if i >= 0 then Number(i, i / 0x8000_0000 == 0, i / TWO32 == 0, true, true)
    else Number(i + TWO64, i >= -0x8000_0000, false, true, false)
  }

  /** GenericValue(uint64_t). */
  function FromUint64(u: int): (n: Number)
    requires IsUint64Value(u)
  {
    Number(u, u / 0x8000_0000 == 0, u / TWO32 == 0, u / TWO63 == 0, true)
  }

  /** The number that the value `v` has whatever constructor made it. */
  function Integer(v: int): (n: Number)
    requires -TWO63 <= v < TWO64
  {
    Number(if v >= 0 then v else v + TWO64, IsInt32(v), IsUint32(v), v < TWO63, v >= 0)
  }

  /** The four constructors agree: bits and flags depend on the mathematical value alone. */
  lemma ConstructorsAgree(v: int)
    ensures IsInt32(v) ==> FromInt(v) == Integer(v)
    ensures IsUint32(v) ==> FromUint(v) == Integer(v)
    ensures IsInt64Value(v) ==> FromInt64(v) == Integer(v)
    ensures IsUint64Value(v) ==> FromUint64(v) == Integer(v)
  {
  }

  // ---------------------------------------------------------------------------------------------
  // Values
  // ---------------------------------------------------------------------------------------------

  datatype Value =
    | NullValue | BoolValue(b: bool) | NumberValue(number: Number) | StringValue(str: Text)
    | ArrayValue(elements: seq<Value>) | ObjectValue(members: seq<Member>)

  datatype Member = Member(name: Text, value: Value)

  /** The reader's 32-bit count of the characters and the NUL behind them does not wrap around. */
  predicate Countable(str: Text) {
    |str| + 1 < TWO32
  }

  /** Numbers are integers made by a constructor; sizes fit the 32-bit SizeType, and strings the reader's count. */
  ghost predicate Valid(v: Value) {
    match v
    case NumberValue(n) => exists i: int :: -TWO63 <= i < TWO64 && n == Integer(i)
    case StringValue(str) => Countable(str)
    case ArrayValue(elements) => |elements| < TWO32 && forall e | e in elements :: Valid(e)
    case ObjectValue(members) => |members| < TWO32 && forall m | m in members :: Countable(m.name) && Valid(m.value)
    case _ => true
  }

  /** The event of a number: the narrowest type that its flags allow, signed before unsigned. */
  function NumberEvent(n: Number): (e: Event)
    requires n.bits < TWO64
  {
    if n.isInt then Int(Signed(n.bits % TWO32, TWO32))
    else if n.isUint then Uint(n.bits % TWO32)
    else if n.isInt64 then Int64(Signed(n.bits, TWO64))
    else Uint64(n.bits)
  }

  /** The event carries the value of the integer. */
  lemma NumberEventValue(v: int)
    requires -TWO63 <= v < TWO64
    ensures NumberEvent(Integer(v)) ==
            if IsInt32(v) then Int(v) else if IsUint32(v) then Uint(v) else if v < TWO63 then Int64(v) else Uint64(v)
  {
    var n := Integer(v);
    if IsInt32(v) {
      assert n.bits % TWO32 == if v >= 0 then v else v + TWO32;
    } else if IsUint32(v) {
      assert n.bits % TWO32 == v;
    }
  }

  // ---------------------------------------------------------------------------------------------
  // The handler of GenericDocument: a stack of values
  // ---------------------------------------------------------------------------------------------

  /** Consecutive pairs of values as members: a name and a value each. */
  function Paired(values: seq<Value>): (r: seq<Member>)
    requires |values| % 2 == 0
    ensures |r| == |values| / 2
  {
    if values == [] then []
    else [Member(if values[0].StringValue? then values[0].str else [], values[1])] + Paired(values[2..])
  }

  /** An event can be handled when what it closes is on the stack. */
  predicate CanHandle(stack: seq<Value>, e: Event) {
    match e
    case EndObject(n) => 2 * n < |stack|
    case EndArray(n) => n < |stack|
    case Int(i) => IsInt32(i)
    case Uint(u) => IsUint32(u)
    case Int64(i) => IsInt64Value(i)
    case Uint64(u) => IsUint64Value(u)
    case Double(_) => false
    case _ => true
  }

  /** The stack after an event. */
  function Handle(stack: seq<Value>, e: Event): (r: seq<Value>)
    requires CanHandle(stack, e)
  {
    match e
    case Null => stack + [NullValue]
    case Bool(b) => stack + [BoolValue(b)]
    case Int(i) => stack + [NumberValue(FromInt(i))]
    case Uint(u) => stack + [NumberValue(FromUint(u))]
    case Int64(i) => stack + [NumberValue(FromInt64(i))]
    case Uint64(u) => stack + [NumberValue(FromUint64(u))]
    case String(str) => stack + [StringValue(str)]
    case Key(str) => stack + [StringValue(str)]
    case StartObject => stack + [ObjectValue([])]
    case StartArray => stack + [ArrayValue([])]
    case EndObject(n) => stack[..|stack| - 2 * n - 1] + [ObjectValue(Paired(stack[|stack| - 2 * n..]))]
    case EndArray(n) => stack[..|stack| - n - 1] + [ArrayValue(stack[|stack| - n..])]
  }

  /** The stack after events one after the other, or None when one of them cannot be handled. */
  function Build(stack: seq<Value>, events: seq<Event>): (r: Option<seq<Value>>)
    decreases |events|
  {
    if events == [] then Some(stack)
    else if CanHandle(stack, events[0]) then Build(Handle(stack, events[0]), events[1..])
    else None
  }

  lemma {:induction false} BuildConcat(stack: seq<Value>, a: seq<Event>, b: seq<Event>)
    requires Build(stack, a).Some?
    ensures Build(stack, a + b) == Build(Build(stack, a).value, b)
    decreases |a|
  {
    if a == [] {
      assert [] + b == b;
    } else {
      assert (a + b)[1..] == a[1..] + b;
      BuildConcat(Handle(stack, a[0]), a[1..], b);
    }
  }

  lemma BuildOne(stack: seq<Value>, e: Event)
    requires CanHandle(stack, e)
    ensures Build(stack, [e]) == Some(Handle(stack, e))
  {
    assert [e][1..] == [];
  }

  // ---------------------------------------------------------------------------------------------
  // Building a value from the events of its text
  // ---------------------------------------------------------------------------------------------

  /** The event with which the text of the integer `v` is read: unsigned unless it is negative. */
  function ReadEvent(v: int): (e: Event)
    requires -TWO63 <= v < TWO64
  {
    if v < 0 then (if v >= -0x8000_0000 then Int(v) else Int64(v)) else if v < TWO32 then Uint(v) else Uint64(v)
  }

  /** The integer that a number was made from. */
  function IntegerOf(n: Number): (v: int) {
    if n.isUint64 then n.bits else n.bits - TWO64
  }

  lemma IntegerOfInteger(v: int)
    requires -TWO63 <= v < TWO64
    ensures IntegerOf(Integer(v)) == v
  {
  }

  /** The events with which the text of a value is read. */
  function EventsOf(v: Value): (r: seq<Event>)
    requires Valid(v)
    decreases v, 0
  {
    match v
    case NullValue => [Null]
    case BoolValue(b) => [Bool(b)]
    case NumberValue(n) => [ReadEvent(IntegerOf(n))]
    case StringValue(str) => [String(str)]
    case ArrayValue(elements) => [StartArray] + ElementEvents(elements, 0) + [EndArray(|elements|)]
    case ObjectValue(members) => [StartObject] + MemberEvents(members, 0) + [EndObject(|members|)]
  }

  function ElementEvents(elements: seq<Value>, k: nat): (r: seq<Event>)
    requires k <= |elements| && forall e | e in elements :: Valid(e)
    decreases elements, |elements| - k
  {
    if k == |elements| then [] else EventsOf(elements[k]) + ElementEvents(elements, k + 1)
  }

  function MemberEvents(members: seq<Member>, k: nat): (r: seq<Event>)
    requires k <= |members| && forall m | m in members :: Valid(m.value)
    decreases members, |members| - k
  {
    if k == |members| then [] else [Key(members[k].name)] + EventsOf(members[k].value) + MemberEvents(members, k + 1)
  }

  /** The names and values of members, one after the other, as they lie on the stack. */
  function Flat(members: seq<Member>): (r: seq<Value>)
    ensures |r| == 2 * |members|
  {
    if members == [] then [] else [StringValue(members[0].name), members[0].value] + Flat(members[1..])
  }

  lemma {:induction false} PairedFlat(members: seq<Member>)
    ensures Paired(Flat(members)) == members
    decreases |members|
  {
    if members != [] {
      var flat := Flat(members);
      assert flat[2..] == Flat(members[1..]);
      PairedFlat(members[1..]);
    }
  }

  /** The brackets of an array or object can be handled around their contents. */
  lemma Handles(stack: seq<Value>, full: seq<Value>, n: nat)
    ensures CanHandle(stack, StartArray) && CanHandle(stack, StartObject)
    ensures n < |full| ==> CanHandle(full, EndArray(n))
    ensures 2 * n < |full| ==> CanHandle(full, EndObject(n))
  {
  }

  /** Reading the events of a value puts that value on the stack. */
  lemma {:induction false} BuildsValue(stack: seq<Value>, v: Value)
    requires Valid(v)
    ensures Build(stack, EventsOf(v)) == Some(stack + [v])
    decreases v, 0
  {
    match v
    case NullValue => BuildOne(stack, Null);
    case BoolValue(b) => BuildOne(stack, Bool(b));
    case NumberValue(n) =>
      var i: int :| -TWO63 <= i < TWO64 && n == Integer(i);
      IntegerOfInteger(i);
      ConstructorsAgree(i);
      BuildOne(stack, ReadEvent(i));
    case StringValue(str) => BuildOne(stack, String(str));
    case ArrayValue(elements) => BuildsArray(stack, elements);
    case ObjectValue(members) => BuildsObject(stack, members);
  }

  lemma {:induction false} BuildsElements(stack: seq<Value>, elements: seq<Value>, k: nat)
    requires k <= |elements| && forall e | e in elements :: Valid(e)
    ensures Build(stack + elements[..k], ElementEvents(elements, k)) == Some(stack + elements)
    decreases elements, |elements| - k
  {
    if k == |elements| {
      assert elements[..k] == elements;
    } else {
      hide Build;
      BuildsValue(stack + elements[..k], elements[k]);
      assert stack + elements[..k] + [elements[k]] == stack + elements[..k + 1];
      BuildConcat(stack + elements[..k], EventsOf(elements[k]), ElementEvents(elements, k + 1));
      BuildsElements(stack, elements, k + 1);
    }
  }

  lemma {:induction false} BuildsArray(stack: seq<Value>, elements: seq<Value>)
    requires Valid(ArrayValue(elements))
    ensures Build(stack, EventsOf(ArrayValue(elements))) == Some(stack + [ArrayValue(elements)])
    decreases elements, |elements| + 1
  {
    hide Build, ElementEvents, CanHandle;
    var base := stack + [ArrayValue([])];
    var n := |elements|;
    Handles(stack, base + elements, |elements|);
    BuildOne(stack, StartArray);
    BuildsElements(base, elements, 0);
    assert base + elements[..0] == base;
    BuildConcat(stack, [StartArray], ElementEvents(elements, 0));
    BuildConcat(stack, [StartArray] + ElementEvents(elements, 0), [EndArray(n)]);
    var full := base + elements;
    assert full[..|full| - n - 1] == stack && full[|full| - n..] == elements;
    BuildOne(full, EndArray(n));
  }

  lemma {:induction false} BuildsMembers(stack: seq<Value>, members: seq<Member>, k: nat)
    requires k <= |members| && forall m | m in members :: Valid(m.value)
    ensures Build(stack + Flat(members[..k]), MemberEvents(members, k)) == Some(stack + Flat(members))
    decreases members, |members| - k
  {
    if k == |members| {
      assert members[..k] == members;
    } else {
      hide Build;
      var m := members[k];
      var here := stack + Flat(members[..k]);
      BuildOne(here, Key(m.name));
      BuildsValue(here + [StringValue(m.name)], m.value);
      BuildConcat(here, [Key(m.name)], EventsOf(m.value));
      BuildConcat(here, [Key(m.name)] + EventsOf(m.value), MemberEvents(members, k + 1));
      FlatSnoc(members, k);
      assert here + [StringValue(m.name)] + [m.value] == stack + Flat(members[..k + 1]);
      BuildsMembers(stack, members, k + 1);
    }
  }

  lemma {:induction false} FlatSnoc(members: seq<Member>, k: nat)
    requires k < |members|
    ensures Flat(members[..k + 1]) == Flat(members[..k]) + [StringValue(members[k].name), members[k].value]
    decreases k
  {
    if k > 0 {
      var rest := members[1..];
      assert members[..k + 1][1..] == rest[..k] && members[..k][1..] == rest[..k - 1];
      FlatSnoc(rest, k - 1);
    }
  }

  lemma {:induction false} BuildsObject(stack: seq<Value>, members: seq<Member>)
    requires Valid(ObjectValue(members))
    ensures Build(stack, EventsOf(ObjectValue(members))) == Some(stack + [ObjectValue(members)])
    decreases members, |members| + 1
  {
    hide Build, MemberEvents, CanHandle;
    var base := stack + [ObjectValue([])];
    var n := |members|;
    Handles(stack, base + Flat(members), |members|);
    BuildOne(stack, StartObject);
    BuildsMembers(base, members, 0);
    assert base + Flat(members[..0]) == base;
    BuildConcat(stack, [StartObject], MemberEvents(members, 0));
    BuildConcat(stack, [StartObject] + MemberEvents(members, 0), [EndObject(n)]);
    var full := base + Flat(members);
    assert full[..|full| - 2 * n - 1] == stack && full[|full| - 2 * n..] == Flat(members);
    PairedFlat(members);
    BuildOne(full, EndObject(n));
  }
}
