/**
  JSON text as the recursive descent of reader.h reads it: the events of a value, of the members of an object and of the
  elements of an array, and the error at which reading stops. The events before an error are part of the result.
 */
module JsonGrammar {
  import opened JsonSyntax

  /** Counts are 32 bits wide. */
  function Count32(n: nat): (r: nat) {
    n % TWO32
  }

  /** `events` before those of `r`. */
  function Prefix(events: seq<Event>, r: Outcome): (o: Outcome) {
    match r
    case Ok(more, next) => Ok(events + more, next)
    case Err(more, code, offset) => Err(events + more, code, offset)
  }

  /** ParseValue, at a character that is not white space. */
  function Value(s: Text, i: nat, big: TooBig): (r: Outcome)
    requires i <= |s|
    ensures r.Ok? ==> i < r.next <= |s|
    decreases |s| - i, 2
  {
    var c := Peek(s, i);
    if c == '{' as int then ParseObject(s, i, big)
    else if c == '[' as int then ParseArray(s, i, big)
    else Scalar(s, i, big)
  }

  /** A value that is neither an object nor an array. */
  function Scalar(s: Text, i: nat, big: TooBig): (r: Outcome)
    requires i <= |s|
    ensures r.Err? ==> r.events == []
    ensures r.Ok? ==> i < r.next <= |s|
    ensures Peek(s, i) == 0 ==> r == Err([], ValueInvalid, i)
  {
    var c := Peek(s, i);
    if c == 'n' as int then ParseName(s, i, NULL_TAIL, Null)
    else if c == 't' as int then ParseName(s, i, TRUE_TAIL, Bool(true))
    else if c == 'f' as int then ParseName(s, i, FALSE_TAIL, Bool(false))
    else if c == '"' as int then
      match ParseString(s, i)
      case StringOk(value, next) => Ok([String(value)], next)
      case StringErr(code, offset) => Err([], code, offset)
    else ParseNumber(s, i, big)
  }

  const NULL_TAIL: Text := ['u' as int, 'l' as int, 'l' as int]
  const TRUE_TAIL: Text := ['r' as int, 'u' as int, 'e' as int]
  const FALSE_TAIL: Text := ['a' as int, 'l' as int, 's' as int, 'e' as int]

  /** ParseObject, at the opening brace. */
  function ParseObject(s: Text, i: nat, big: TooBig): (r: Outcome)
    requires i < |s| && s[i] == '{' as int
    ensures r.Ok? ==> i < r.next <= |s|
    decreases |s| - i, 1
  {
    var j := SkipSpace(s, i + 1);
    if Peek(s, j) == '}' as int then Ok([StartObject, EndObject(0)], j + 1)
    else Prefix([StartObject], Members(s, j, 0, big))
  }

  /** The members of an object from `i` on, after `count` others, and the closing brace. */
  function Members(s: Text, i: nat, count: nat, big: TooBig): (r: Outcome)
    requires i <= |s|
    ensures r.Ok? ==> i < r.next <= |s|
    decreases |s| - i, 1
  {
    var m := Member(s, i, big);
    if m.Err? then m else Prefix(m.events, AfterMember(s, m.next, count + 1, big))
  }

  /** One member of an object: its name, the colon, its value, and the white space behind it. */
  function Member(s: Text, i: nat, big: TooBig): (r: Outcome)
    requires i <= |s|
    ensures r.Ok? ==> i < r.next <= |s|
    decreases |s| - i, 0
  {
    if Peek(s, i) != '"' as int then Err([], ObjectMissName, i)
    else match ParseString(s, i)
      case StringErr(code, offset) => Err([], code, offset)
      case StringOk(name, next) => Prefix([Key(name)], AfterName(s, SkipSpace(s, next), big))
  }

  /** What follows the name of a member. */
  function AfterName(s: Text, i: nat, big: TooBig): (r: Outcome)
    requires i <= |s|
    ensures r.Ok? ==> i < r.next <= |s|
    decreases |s| - i, 3
  {
    if Peek(s, i) != ':' as int then Err([], ObjectMissColon, i)
    else match Value(s, SkipSpace(s, i + 1), big)
      case Ok(events, next) => Ok(events, SkipSpace(s, next))
      case Err(events, code, offset) => Err(events, code, offset)
  }

  /** What follows a member, `count` members having been read. */
  function AfterMember(s: Text, i: nat, count: nat, big: TooBig): (r: Outcome)
    requires i <= |s|
    ensures r.Ok? ==> i < r.next <= |s|
    decreases |s| - i, 3
  {
    if Peek(s, i) == ',' as int then Members(s, SkipSpace(s, i + 1), count, big)
    else if Peek(s, i) == '}' as int then Ok([EndObject(Count32(count))], i + 1)
    else Err([], ObjectMissCommaOrCurlyBracket, i)
  }

  /** ParseArray, at the opening bracket. */
  function ParseArray(s: Text, i: nat, big: TooBig): (r: Outcome)
    requires i < |s| && s[i] == '[' as int
    ensures r.Ok? ==> i < r.next <= |s|
    decreases |s| - i, 1
  {
    var j := SkipSpace(s, i + 1);
    if Peek(s, j) == ']' as int then Ok([StartArray, EndArray(0)], j + 1)
    else Prefix([StartArray], Elements(s, j, 0, big))
  }

  /** The elements of an array from `i` on, after `count` others, and the closing bracket. */
  function Elements(s: Text, i: nat, count: nat, big: TooBig): (r: Outcome)
    requires i <= |s|
    ensures r.Ok? ==> i < r.next <= |s|
    decreases |s| - i, 4
  {
    var v := Value(s, i, big);
    if v.Err? then v else Prefix(v.events, AfterElement(s, SkipSpace(s, v.next), count + 1, big))
  }

  function AfterElement(s: Text, i: nat, count: nat, big: TooBig): (r: Outcome)
    requires i <= |s|
    ensures r.Ok? ==> i < r.next <= |s|
    decreases |s| - i, 3
  {
    if Peek(s, i) == ',' as int then Elements(s, SkipSpace(s, i + 1), count, big)
    else if Peek(s, i) == ']' as int then Ok([EndArray(Count32(count))], i + 1)
    else Err([], ArrayMissCommaOrSquareBracket, i)
  }

  /** Parse: a single value, with nothing but white space around it. */
  function Document(s: Text, big: TooBig): (r: Outcome)
    ensures r.Ok? ==> r.next <= |s| && Peek(s, r.next) == 0
  {
    var i := SkipSpace(s, 0);
    if Peek(s, i) == 0 then Err([], DocumentEmpty, i)
    else match Value(s, i, big)
      case Err(events, code, offset) => Err(events, code, offset)
      case Ok(events, next) => EndOfDocument(s, events, SkipSpace(s, next))
  }

  function EndOfDocument(s: Text, events: seq<Event>, i: nat): (r: Outcome)
    ensures r.Ok? ==> r.next == i && Peek(s, i) == 0
  {
    if Peek(s, i) == 0 then Ok(events, i) else Err(events, DocumentRootNotSingular, i)
  }
}
