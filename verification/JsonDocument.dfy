/** GenericDocument of document.h as the handler of a parse, and the whole way from a value to its text and back. */
module JsonDocument {
  import opened JsonSyntax
  import opened JsonDom
  import JsonAutomaton
  import JsonGrammar
  import JsonPrint
  import JsonReader
  import JsonBuffer
  import JsonWriter

  class Document {
    var stack: seq<Value>

    constructor ()
      ensures stack == []
    {
      stack := [];
    }

    /** EndObject: the values on the top of the stack, a name and a value in turn, become the members of the object below them. */
    method EndObject(count: nat)
      requires CanHandle(stack, Event.EndObject(count))
      modifies this
      ensures stack == Handle(old(stack), Event.EndObject(count))
    {
      var first := |stack| - 2 * count;
      stack := stack[..first - 1] + [ObjectValue(Paired(stack[first..]))];
    }

    /** EndArray: the values on the top of the stack become the elements of the array below them. */
    method EndArray(count: nat)
      requires CanHandle(stack, Event.EndArray(count))
      modifies this
      ensures stack == Handle(old(stack), Event.EndArray(count))
    {
      stack := stack[..|stack| - count - 1] + [ArrayValue(stack[|stack| - count..])];
    }

    /** The handler's methods. */
    method Take(e: Event)
      requires CanHandle(stack, e)
      modifies this
      ensures stack == Handle(old(stack), e)
    {
      match e
      case Null => stack := stack + [NullValue];
      case Bool(b) => stack := stack + [BoolValue(b)];
      case Int(i) => stack := stack + [NumberValue(FromInt(i))];
      case Uint(u) => stack := stack + [NumberValue(FromUint(u))];
      case Int64(i) => stack := stack + [NumberValue(FromInt64(i))];
      case Uint64(u) => stack := stack + [NumberValue(FromUint64(u))];
      case String(str) => stack := stack + [StringValue(str)];
      case Key(str) => stack := stack + [StringValue(str)];
      case StartObject => stack := stack + [ObjectValue([])];
      case StartArray => stack := stack + [ArrayValue([])];
      case EndObject(count) => EndObject(count);
      case EndArray(count) => EndArray(count);
    }

    /** Events one after the other. */
    method TakeAll(events: seq<Event>)
      requires Build(stack, events).Some?
      modifies this
      ensures stack == Build(old(stack), events).value
    {
      hide Handle, CanHandle;
      var k: nat := 0;
      assert events[0..] == events;
      while k < |events|
        invariant k <= |events| && Build(stack, events[k..]) == Build(old(stack), events)
      {
        assert events[k..][1..] == events[k + 1..];
        Take(events[k]);
        k := k + 1;
      }
    }
  }

  /** A value is written, and its text read by either parser into a document: the document's root is that value. */
  method Reload(v: Value, big: TooBig, iterative: bool) returns (r: Value)
    requires JsonDom.Valid(v) && JsonBuffer.Storable(v)
    ensures r == v
  {
    hide *;
    var text := JsonWriter.WriteOut(v);
    JsonPrint.RoundTrip(v, big);
    JsonWriter.TextAgreed(v, big);
    var events := ReadText(text, big, iterative);
    var d := new Document();
    d.TakeAll(events);
    r := d.stack[0];
  }

  /** The events of a text that a parser accepts. */
  method ReadText(text: Text, big: TooBig, iterative: bool) returns (events: seq<Event>)
    requires JsonGrammar.Document(text, big).Ok? && JsonGrammar.Document(text, big) == JsonAutomaton.Iterate(text, big)
    ensures events == JsonGrammar.Document(text, big).events
  {
    hide JsonGrammar.Document, JsonAutomaton.Iterate;
    var reader := new JsonReader.Reader(text, big);
    if iterative {
      reader.IterativeParse();
    } else {
      reader.Parse();
    }
    events := reader.events;
  }
}
