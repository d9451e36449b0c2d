/**
  The iterative parser of reader.h as a pushdown automaton: tokens, the transition table, and runs. It is proved to give,
  on every text, the same events and the same outcome as the recursive descent.
 */
module JsonAutomaton {
  import opened Bytes
  import opened JsonSyntax
  import opened JsonGrammar

  datatype State =
    | FinishState | ErrorState | StartState
    | ObjectInitialState | MemberKeyState | MemberValueState | ObjectFinishState
    | ArrayInitialState | ElementState | ArrayFinishState
    | ValueState
    | ElementDelimiterState | MemberDelimiterState | KeyValueDelimiterState

  datatype Token =
    | LeftBracket | RightBracket | LeftCurlyBracket | RightCurlyBracket | Comma | Colon
    | StringToken | FalseToken | TrueToken | NullToken | NumberToken

  function Tokenize(c: byte): (t: Token) {
    if c == '"' as int then StringToken
    else if c == ',' as int then Comma
    else if c == ':' as int then Colon
    else if c == '[' as int then LeftBracket
    else if c == ']' as int then RightBracket
    else if c == 'f' as int then FalseToken
    else if c == 'n' as int then NullToken
    else if c == 't' as int then TrueToken
    else if c == '{' as int then LeftCurlyBracket
    else if c == '}' as int then RightCurlyBracket
    else NumberToken
  }

  /** The transition table: the row of a state in which a value may come. */
  function ValueRow(token: Token, closing: State, scalar: State): (r: State) {
    match token
    case LeftBracket => ArrayInitialState
    case RightBracket => closing
    case LeftCurlyBracket => ObjectInitialState
    case RightCurlyBracket => ErrorState
    case Comma => ErrorState
    case Colon => ErrorState
    case _ => scalar
  }

  function Predict(state: State, token: Token): (r: State) {
    match state
    case StartState => ValueRow(token, ErrorState, ValueState)
    case ObjectInitialState =>
      if token == RightCurlyBracket then ObjectFinishState else if token == StringToken then MemberKeyState else ErrorState
    case MemberKeyState => if token == Colon then KeyValueDelimiterState else ErrorState
    case MemberValueState =>
      if token == RightCurlyBracket then ObjectFinishState else if token == Comma then MemberDelimiterState else ErrorState
    case ArrayInitialState => ValueRow(token, ArrayFinishState, ElementState)
    case ElementState =>
      if token == RightBracket then ArrayFinishState else if token == Comma then ElementDelimiterState else ErrorState
    case ElementDelimiterState => ValueRow(token, ArrayFinishState, ElementState)
    case MemberDelimiterState =>
      if token == RightCurlyBracket then ObjectFinishState else if token == StringToken then MemberKeyState else ErrorState
    case KeyValueDelimiterState => ValueRow(token, ErrorState, MemberValueState)
    case _ => ErrorState
  }

  /** HandleError: the error reported in a state. */
  function ErrorIn(state: State): (code: ErrorCode) {
    match state
    case StartState => DocumentEmpty
    case FinishState => DocumentRootNotSingular
    case ObjectInitialState => ObjectMissName
    case MemberDelimiterState => ObjectMissName
    case MemberKeyState => ObjectMissColon
    case MemberValueState => ObjectMissCommaOrCurlyBracket
    case KeyValueDelimiterState => ValueInvalid
    case ArrayInitialState => ValueInvalid
    case ElementDelimiterState => ValueInvalid
    case _ => ArrayMissCommaOrSquareBracket
  }

  /** One level of nesting: the state to return to and the members or elements counted so far. */
  datatype Frame = Frame(state: State, count: nat)

  /** The state that is kept while a nested value is read in state `src`. */
  function Kept(src: State): (r: State) {
    if src == ArrayInitialState || src == ElementDelimiterState then ElementState
    else if src == KeyValueDelimiterState then MemberValueState
    else src
  }

  /** The state that is resumed when the nested value ends. */
  function Resumed(kept: State): (r: State) {
    if kept == StartState then FinishState else kept
  }

  /** The outermost frame returns to the start, the others into an array or an object. */
  ghost predicate GoodStack(stack: seq<Frame>) {
    forall k | 0 <= k < |stack| ::
      if k == 0 then stack[k].state == StartState else stack[k].state == ElementState || stack[k].state == MemberValueState
  }

  ghost predicate Good(state: State, stack: seq<Frame>) {
    && GoodStack(stack)
    && (stack == [] ==> state == StartState || state == FinishState)
    && (stack != [] ==> state != StartState && state != FinishState)
    && state in {StartState, FinishState, ObjectInitialState, MemberKeyState, MemberValueState, ArrayInitialState, ElementState,
                 ElementDelimiterState, MemberDelimiterState, KeyValueDelimiterState}
  }

  /** What one transition does: it goes on in a state with a stack at a position, after some events, or stops with an error. */
  datatype Move = Move(events: seq<Event>, state: State, stack: seq<Frame>, next: nat) | Halt(code: ErrorCode, offset: nat)

  /** Transit, at a character that is not the end of the text. */
  function Transit(s: Text, src: State, stack: seq<Frame>, i: nat, big: TooBig): (m: Move)
    requires i < |s| && Peek(s, i) != 0 && Good(src, stack)
    ensures m.Move? ==> i < m.next <= |s| && Good(m.state, m.stack)
  {
    var dst := Predict(src, Tokenize(Peek(s, i)));
    match dst
    case ErrorState => Halt(ErrorIn(src), i)
    case ObjectInitialState => Move([StartObject], dst, stack + [Frame(Kept(src), 0)], i + 1)
    case ArrayInitialState => Move([StartArray], dst, stack + [Frame(Kept(src), 0)], i + 1)
    case MemberKeyState =>
      (match ParseString(s, i)
       case StringOk(name, next) => Move([Key(name)], dst, stack, next)
       case StringErr(code, offset) => Halt(code, offset))
    case KeyValueDelimiterState => Move([], dst, stack, i + 1)
    case MemberDelimiterState => Move([], dst, Bumped(stack), i + 1)
    case ElementDelimiterState => Move([], dst, Bumped(stack), i + 1)
    case ObjectFinishState =>
      if src == MemberDelimiterState then Halt(ObjectMissName, i)
      else Closed(stack, i, src == MemberValueState, true)
    case ArrayFinishState =>
      if src == ElementDelimiterState then Halt(ValueInvalid, i)
      else Closed(stack, i, src == ElementState, false)
    case _ =>
      match Scalar(s, i, big)
      case Ok(events, next) => Move(events, if dst == ValueState then FinishState else dst, stack, next)
      case Err(events, code, offset) => Halt(code, offset)
  }

  /** The stack with the innermost count raised by one. */
  function Bumped(stack: seq<Frame>): (r: seq<Frame>)
    requires stack != [] && GoodStack(stack)
    ensures |r| == |stack| && GoodStack(r)
  {
    var top := stack[|stack| - 1];
    stack[..|stack| - 1] + [top.(count := Count32(top.count + 1))]
  }

  /** The end of a nested value: pops its frame and reports its count, including a last one that no comma followed. */
  function Closed(stack: seq<Frame>, i: nat, last: bool, isObject: bool): (m: Move)
    requires stack != [] && GoodStack(stack)
    ensures m.Move? && m.next == i + 1 && Good(m.state, m.stack)
  {
    var top := stack[|stack| - 1];
    var count := Count32(if last then top.count + 1 else top.count);
    Move([if isObject then EndObject(count) else EndArray(count)], Resumed(top.state), stack[..|stack| - 1], i + 1)
  }

  /** IterativeParse from some point of its loop on. */
  function Run(s: Text, state: State, stack: seq<Frame>, i: nat, big: TooBig): (r: Outcome)
    requires i <= |s| && Good(state, stack)
    decreases |s| - i
  {
    if Peek(s, i) == 0 then if state == FinishState then Ok([], i) else Err([], ErrorIn(state), i)
    else match Transit(s, state, stack, i, big)
      case Halt(code, offset) => Err([], code, offset)
      case Move(events, state', stack', next) => Prefix(events, Run(s, state', stack', SkipSpace(s, next), big))
  }

  /** IterativeParse. */
  function Iterate(s: Text, big: TooBig): (r: Outcome) {
    Run(s, StartState, [], SkipSpace(s, 0), big)
  }

  // ---------------------------------------------------------------------------------------------
  // The automaton follows the recursive descent
  // ---------------------------------------------------------------------------------------------

  /** The outcome of a part, followed by the rest of the run in some state. */
  ghost function Then(o: Outcome, s: Text, state: State, stack: seq<Frame>, big: TooBig): Outcome
    requires o.Ok? ==> o.next <= |s|
    requires Good(state, stack)
  {
    match o
    case Err(_, _, _) => o
    case Ok(events, next) => Prefix(events, Run(s, state, stack, SkipSpace(s, next), big))
  }

  lemma PrefixPrefix(a: seq<Event>, b: seq<Event>, r: Outcome)
    ensures Prefix(a, Prefix(b, r)) == Prefix(a + b, r)
  {
    assert a + (b + r.events) == a + b + r.events;
  }

  lemma PrefixNothing(r: Outcome)
    ensures Prefix([], r) == r
  {
    assert [] + r.events == r.events;
  }

  /** A part that starts with some events. */
  lemma ThenPrefix(events: seq<Event>, o: Outcome, s: Text, state: State, stack: seq<Frame>, big: TooBig)
    requires o.Ok? ==> o.next <= |s|
    requires Good(state, stack)
    ensures Prefix(events, Then(o, s, state, stack, big)) == Then(Prefix(events, o), s, state, stack, big)
  {
    hide Run;
    if o.Ok? {
      PrefixPrefix(events, o.events, Run(s, state, stack, SkipSpace(s, o.next), big));
    }
  }

  /** States in which a value is expected. */
  ghost predicate Expecting(state: State) {
    state in {StartState, ArrayInitialState, ElementDelimiterState, KeyValueDelimiterState}
  }

  /** The characters on which the two parsers report different errors at the start. */
  predicate Stray(c: byte) {
    c == ']' as int || c == '}' as int || c == ',' as int || c == ':' as int
  }

  /** One turn of the loop. */
  lemma RunStep(s: Text, state: State, stack: seq<Frame>, i: nat, big: TooBig)
    requires i <= |s| && Good(state, stack) && Peek(s, i) != 0
    ensures Run(s, state, stack, i, big) ==
            match Transit(s, state, stack, i, big)
            case Halt(code, offset) => Err([], code, offset)
            case Move(events, state', stack', next) => Prefix(events, Run(s, state', stack', SkipSpace(s, next), big))
  {
    hide Transit, SkipSpace, Good;
  }

  lemma TransitOpen(s: Text, state: State, stack: seq<Frame>, i: nat, big: TooBig)
    requires i <= |s| && Good(state, stack) && Expecting(state)
    requires Peek(s, i) == '{' as int || Peek(s, i) == '[' as int
    ensures Transit(s, state, stack, i, big) ==
            if Peek(s, i) == '{' as int then Move([StartObject], ObjectInitialState, stack + [Frame(Kept(state), 0)], i + 1)
            else Move([StartArray], ArrayInitialState, stack + [Frame(Kept(state), 0)], i + 1)
    ensures Nested(stack, Kept(state))
  {
  }

  lemma TransitClose(s: Text, state: State, stack: seq<Frame>, kept: State, count: nat, i: nat, big: TooBig)
    requires i <= |s| && Nested(stack, kept)
    requires (Peek(s, i) == '}' as int && (state == ObjectInitialState || state == MemberValueState))
          || (Peek(s, i) == ']' as int && (state == ArrayInitialState || state == ElementState))
    ensures Good(state, stack + [Frame(kept, count)])
    ensures var n := Count32(if state == MemberValueState || state == ElementState then count + 1 else count);
            Transit(s, state, stack + [Frame(kept, count)], i, big) ==
            Move([if Peek(s, i) == '}' as int then EndObject(n) else EndArray(n)], Resumed(kept), stack, i + 1)
  {
    hide Count32, Closed, Scalar, ParseString, Bumped;
    NestedGood(stack, kept, count, state);
    ClosedPops(stack, kept, count, i, state == MemberValueState || state == ElementState, Peek(s, i) == '}' as int);
    assert Predict(state, Tokenize(Peek(s, i))) == if Peek(s, i) == '}' as int then ObjectFinishState else ArrayFinishState;
    hide Predict, Tokenize;
  }

  lemma ClosedPops(stack: seq<Frame>, kept: State, count: nat, i: nat, last: bool, isObject: bool)
    requires Nested(stack, kept)
    ensures var inner := stack + [Frame(kept, count)];
            var n := Count32(if last then count + 1 else count);
            GoodStack(inner) && Closed(inner, i, last, isObject)
                             == Move([if isObject then EndObject(n) else EndArray(n)], Resumed(kept), stack, i + 1)
  {
    hide Count32;
    var inner := stack + [Frame(kept, count)];
    assert inner[..|inner| - 1] == stack;
  }

  /** A frame on top of a stack, to return to a state that is kept there. */
  ghost predicate Nested(stack: seq<Frame>, kept: State) {
    && GoodStack(stack)
    && if stack == [] then kept == StartState else kept == ElementState || kept == MemberValueState
  }

  lemma NestedGood(stack: seq<Frame>, kept: State, count: nat, state: State)
    requires Nested(stack, kept)
    requires state in {ObjectInitialState, MemberKeyState, MemberValueState, ArrayInitialState, ElementState,
                       ElementDelimiterState, MemberDelimiterState, KeyValueDelimiterState}
    ensures Good(state, stack + [Frame(kept, count)]) && Good(Resumed(kept), stack)
  {
  }

  /** A value that is expected and present is read by the automaton as by the recursive descent, and then the run resumes. */
  lemma {:induction false} ValueFollows(s: Text, state: State, stack: seq<Frame>, i: nat, big: TooBig)
    requires i <= |s| && Good(state, stack) && Expecting(state)
    requires state == StartState ==> Peek(s, i) != 0 && !Stray(Peek(s, i))
    requires state == ArrayInitialState ==> Peek(s, i) != ']' as int
    ensures Good(Resumed(Kept(state)), stack)
    ensures Run(s, state, stack, i, big) == Then(Value(s, i, big), s, Resumed(Kept(state)), stack, big)
    decreases |s| - i, 2
  {
    hide Run, Transit, SkipSpace, Scalar, ParseObject, ParseArray;
    if Peek(s, i) == '{' as int {
      ObjectFollows(s, state, stack, i, big);
    } else if Peek(s, i) == '[' as int {
      ArrayFollows(s, state, stack, i, big);
    } else {
      ScalarFollows(s, state, stack, i, big);
    }
  }

  lemma RunOpen(s: Text, state: State, stack: seq<Frame>, i: nat, big: TooBig)
    requires i < |s| && Good(state, stack) && Expecting(state)
    requires s[i] == '{' as int || s[i] == '[' as int
    ensures Nested(stack, Kept(state))
    ensures Good(ObjectInitialState, stack + [Frame(Kept(state), 0)]) && Good(ArrayInitialState, stack + [Frame(Kept(state), 0)])
    ensures Good(Resumed(Kept(state)), stack)
    ensures Run(s, state, stack, i, big) ==
            if s[i] == '{' as int
            then Prefix([StartObject], Run(s, ObjectInitialState, stack + [Frame(Kept(state), 0)], SkipSpace(s, i + 1), big))
            else Prefix([StartArray], Run(s, ArrayInitialState, stack + [Frame(Kept(state), 0)], SkipSpace(s, i + 1), big))
  {
    TransitOpen(s, state, stack, i, big);
    NestedGood(stack, Kept(state), 0, ObjectInitialState);
    NestedGood(stack, Kept(state), 0, ArrayInitialState);
    RunStep(s, state, stack, i, big);
    hide *;
  }

  lemma RunClose(s: Text, state: State, stack: seq<Frame>, kept: State, count: nat, i: nat, big: TooBig)
    requires i < |s| && Nested(stack, kept)
    requires (s[i] == '}' as int && (state == ObjectInitialState || state == MemberValueState))
          || (s[i] == ']' as int && (state == ArrayInitialState || state == ElementState))
    ensures Good(state, stack + [Frame(kept, count)]) && Good(Resumed(kept), stack)
    ensures var n := Count32(if state == MemberValueState || state == ElementState then count + 1 else count);
            Run(s, state, stack + [Frame(kept, count)], i, big) ==
            Then(Ok([if s[i] == '}' as int then EndObject(n) else EndArray(n)], i + 1), s, Resumed(kept), stack, big)
  {
    TransitClose(s, state, stack, kept, count, i, big);
    NestedGood(stack, kept, count, state);
    RunStep(s, state, stack + [Frame(kept, count)], i, big);
    hide Run, Transit;
  }

  lemma {:induction false} ObjectFollows(s: Text, state: State, stack: seq<Frame>, i: nat, big: TooBig)
    requires i < |s| && s[i] == '{' as int && Good(state, stack) && Expecting(state)
    ensures Good(Resumed(Kept(state)), stack)
    ensures Run(s, state, stack, i, big) == Then(ParseObject(s, i, big), s, Resumed(Kept(state)), stack, big)
    decreases |s| - i, 1
  {
    hide Run, Transit, SkipSpace, Members, Good, Nested, Then, Prefix;
    var kept, j := Kept(state), SkipSpace(s, i + 1);
    RunOpen(s, state, stack, i, big);
    if Peek(s, j) == '}' as int {
      RunClose(s, ObjectInitialState, stack, kept, 0, j, big);
      ThenPrefix([StartObject], Ok([EndObject(0)], j + 1), s, Resumed(kept), stack, big);
      PrefixOne(StartObject, EndObject(0), j + 1);
    } else {
      MembersFollow(s, ObjectInitialState, stack, kept, 0, j, big);
      ThenPrefix([StartObject], Members(s, j, 0, big), s, Resumed(kept), stack, big);
    }
  }

  lemma PrefixOne(a: Event, b: Event, next: nat)
    ensures Prefix([a], Ok([b], next)) == Ok([a, b], next)
  {
  }

  lemma {:induction false} ArrayFollows(s: Text, state: State, stack: seq<Frame>, i: nat, big: TooBig)
    requires i < |s| && s[i] == '[' as int && Good(state, stack) && Expecting(state)
    ensures Good(Resumed(Kept(state)), stack)
    ensures Run(s, state, stack, i, big) == Then(ParseArray(s, i, big), s, Resumed(Kept(state)), stack, big)
    decreases |s| - i, 1
  {
    hide Run, Transit, SkipSpace, Elements, Good, Nested, Then, Prefix;
    var kept, j := Kept(state), SkipSpace(s, i + 1);
    RunOpen(s, state, stack, i, big);
    if Peek(s, j) == ']' as int {
      RunClose(s, ArrayInitialState, stack, kept, 0, j, big);
      PrefixOne(StartArray, EndArray(0), j + 1);
      ThenPrefix([StartArray], Ok([EndArray(0)], j + 1), s, Resumed(kept), stack, big);
    } else {
      ElementsFollow(s, ArrayInitialState, stack, kept, 0, j, big);
      ThenPrefix([StartArray], Elements(s, j, 0, big), s, Resumed(kept), stack, big);
    }
  }

  /** In these states a run that does not find what it needs reports the error of the state. */
  lemma RunMisses(s: Text, state: State, stack: seq<Frame>, i: nat, big: TooBig)
    requires i <= |s| && Good(state, stack)
    requires state == ObjectInitialState ==> Peek(s, i) != '"' as int && Peek(s, i) != '}' as int
    requires state == MemberDelimiterState ==> Peek(s, i) != '"' as int
    requires state == MemberKeyState ==> Peek(s, i) != ':' as int
    requires state == MemberValueState ==> Peek(s, i) != ',' as int && Peek(s, i) != '}' as int
    requires state == ElementState ==> Peek(s, i) != ',' as int && Peek(s, i) != ']' as int
    requires state in {ObjectInitialState, MemberDelimiterState, MemberKeyState, MemberValueState, ElementState}
    ensures Run(s, state, stack, i, big) == Err([], ErrorIn(state), i)
  {
    if Peek(s, i) != 0 {
      hide Transit, Good, Prefix, SkipSpace;
      TransitMisses(s, state, stack, i, big);
      RunStep(s, state, stack, i, big);
      hide Run;
    }
  }

  lemma TransitMisses(s: Text, state: State, stack: seq<Frame>, i: nat, big: TooBig)
    requires i < |s| && s[i] != 0 && Good(state, stack)
    requires state == ObjectInitialState ==> s[i] != '"' as int && s[i] != '}' as int
    requires state == MemberDelimiterState ==> s[i] != '"' as int
    requires state == MemberKeyState ==> s[i] != ':' as int
    requires state == MemberValueState ==> s[i] != ',' as int && s[i] != '}' as int
    requires state == ElementState ==> s[i] != ',' as int && s[i] != ']' as int
    requires state in {ObjectInitialState, MemberDelimiterState, MemberKeyState, MemberValueState, ElementState}
    ensures Transit(s, state, stack, i, big) == Halt(ErrorIn(state), i)
  {
    hide Closed, Scalar, ParseString, Bumped;
    var dst := Predict(state, Tokenize(s[i]));
    assert dst == ErrorState || (state == MemberDelimiterState && dst == ObjectFinishState);
    hide Predict, Tokenize;
  }

  lemma RunKey(s: Text, state: State, stack: seq<Frame>, i: nat, big: TooBig)
    requires i < |s| && s[i] == '"' as int && Good(state, stack)
    requires state == ObjectInitialState || state == MemberDelimiterState
    ensures Good(MemberKeyState, stack)
    ensures Run(s, state, stack, i, big) ==
            match ParseString(s, i)
            case StringErr(code, offset) => Err([], code, offset)
            case StringOk(name, next) => Prefix([Key(name)], Run(s, MemberKeyState, stack, SkipSpace(s, next), big))
  {
    RunStep(s, state, stack, i, big);
    hide Run, SkipSpace, ParseString;
  }

  lemma RunColon(s: Text, stack: seq<Frame>, i: nat, big: TooBig)
    requires i < |s| && s[i] == ':' as int && Good(MemberKeyState, stack)
    ensures Good(KeyValueDelimiterState, stack)
    ensures Run(s, MemberKeyState, stack, i, big) == Run(s, KeyValueDelimiterState, stack, SkipSpace(s, i + 1), big)
  {
    RunStep(s, MemberKeyState, stack, i, big);
    PrefixNothing(Run(s, KeyValueDelimiterState, stack, SkipSpace(s, i + 1), big));
    hide Run, SkipSpace;
  }

  lemma CountNext(count: nat)
    requires count > 0
    ensures Count32(Count32(count - 1) + 1) == Count32(count)
  {
  }

  lemma TransitComma(s: Text, state: State, stack: seq<Frame>, kept: State, count: nat, i: nat, big: TooBig)
    requires i < |s| && s[i] == ',' as int && Nested(stack, kept) && count > 0
    requires state == MemberValueState || state == ElementState
    ensures var delimiter := if state == MemberValueState then MemberDelimiterState else ElementDelimiterState;
            Good(state, stack + [Frame(kept, Count32(count - 1))]) && Good(delimiter, stack + [Frame(kept, Count32(count))]) &&
            Transit(s, state, stack + [Frame(kept, Count32(count - 1))], i, big) ==
            Move([], delimiter, stack + [Frame(kept, Count32(count))], i + 1)
  {
    hide Count32;
    CountNext(count);
    var inner := stack + [Frame(kept, Count32(count - 1))];
    NestedGood(stack, kept, Count32(count - 1), state);
    NestedGood(stack, kept, Count32(count), if state == MemberValueState then MemberDelimiterState else ElementDelimiterState);
    assert inner[..|inner| - 1] == stack;
    assert Bumped(inner) == stack + [Frame(kept, Count32(count))];
    hide Bumped, Nested;
  }

  lemma RunComma(s: Text, state: State, stack: seq<Frame>, kept: State, count: nat, i: nat, big: TooBig)
    requires i < |s| && s[i] == ',' as int && Nested(stack, kept) && count > 0
    requires state == MemberValueState || state == ElementState
    ensures var delimiter := if state == MemberValueState then MemberDelimiterState else ElementDelimiterState;
            Good(state, stack + [Frame(kept, Count32(count - 1))]) && Good(delimiter, stack + [Frame(kept, Count32(count))]) &&
            Run(s, state, stack + [Frame(kept, Count32(count - 1))], i, big) ==
            Run(s, delimiter, stack + [Frame(kept, Count32(count))], SkipSpace(s, i + 1), big)
  {
    hide Run, SkipSpace, Good, Nested, Transit, Count32, Prefix;
    var delimiter := if state == MemberValueState then MemberDelimiterState else ElementDelimiterState;
    TransitComma(s, state, stack, kept, count, i, big);
    RunStep(s, state, stack + [Frame(kept, Count32(count - 1))], i, big);
    PrefixNothing(Run(s, delimiter, stack + [Frame(kept, Count32(count))], SkipSpace(s, i + 1), big));
  }

  lemma {:induction false} MembersFollow(s: Text, state: State, stack: seq<Frame>, kept: State, count: nat, i: nat, big: TooBig)
    requires i <= |s| && Nested(stack, kept)
    requires state == MemberDelimiterState || (state == ObjectInitialState && Peek(s, i) != '}' as int)
    ensures Good(state, stack + [Frame(kept, Count32(count))]) && Good(Resumed(kept), stack)
    ensures Run(s, state, stack + [Frame(kept, Count32(count))], i, big) == Then(Members(s, i, count, big), s, Resumed(kept), stack, big)
    decreases |s| - i, 0
  {
    var inner := stack + [Frame(kept, Count32(count))];
    NestedGood(stack, kept, Count32(count), state);
    if Peek(s, i) != '"' as int {
      RunMisses(s, state, inner, i, big);
    } else {
      RunKey(s, state, inner, i, big);
      hide Run, SkipSpace, ParseString, Good, Nested;
      var key := ParseString(s, i);
      if key.StringOk? {
        NestedGood(stack, kept, Count32(count), MemberKeyState);
        MemberFollows(s, stack, kept, count, SkipSpace(s, key.next), big);
        ThenPrefix([Key(key.value)], AfterKey(s, SkipSpace(s, key.next), count, big), s, Resumed(kept), stack, big);
        MembersUnfold(s, i, count, big);
      }
    }
  }

  /** The rest of an object behind the name of a member. */
  ghost function AfterKey(s: Text, colon: nat, count: nat, big: TooBig): (r: Outcome)
    requires colon <= |s|
    ensures r.Ok? ==> r.next <= |s|
  {
    var m := AfterName(s, colon, big);
    if m.Err? then m else Prefix(m.events, AfterMember(s, m.next, count + 1, big))
  }

  lemma MembersUnfold(s: Text, i: nat, count: nat, big: TooBig)
    requires i < |s| && s[i] == '"' as int && ParseString(s, i).StringOk?
    ensures var StringOk(name, next) := ParseString(s, i);
            Members(s, i, count, big) == Prefix([Key(name)], AfterKey(s, SkipSpace(s, next), count, big))
  {
    hide ParseString, SkipSpace, AfterName, AfterMember;
    var m := AfterName(s, SkipSpace(s, ParseString(s, i).next), big);
    if m.Ok? { PrefixPrefix([Key(ParseString(s, i).value)], m.events, AfterMember(s, m.next, count + 1, big)); }
  }

  lemma {:induction false} MemberFollows(s: Text, stack: seq<Frame>, kept: State, count: nat, colon: nat, big: TooBig)
    requires colon <= |s| && Nested(stack, kept)
    ensures Good(MemberKeyState, stack + [Frame(kept, Count32(count))]) && Good(Resumed(kept), stack)
    ensures Run(s, MemberKeyState, stack + [Frame(kept, Count32(count))], colon, big) ==
            Then(AfterKey(s, colon, count, big), s, Resumed(kept), stack, big)
    decreases |s| - colon, 3
  {
    var inner := stack + [Frame(kept, Count32(count))];
    NestedGood(stack, kept, Count32(count), MemberKeyState);
    if Peek(s, colon) != ':' as int {
      RunMisses(s, MemberKeyState, inner, colon, big);
    } else {
      RunColon(s, inner, colon, big);
      var i := SkipSpace(s, colon + 1);
      ValueFollows(s, KeyValueDelimiterState, inner, i, big);
      var v := Value(s, i, big);
      hide Run, SkipSpace, Value, AfterMember, Good, Nested;
      if v.Ok? {
        AfterMemberFollows(s, stack, kept, count + 1, SkipSpace(s, v.next), big);
        ThenPrefix(v.events, AfterMember(s, SkipSpace(s, v.next), count + 1, big), s, Resumed(kept), stack, big);
      }
    }
  }

  lemma {:induction false} AfterMemberFollows(s: Text, stack: seq<Frame>, kept: State, count: nat, i: nat, big: TooBig)
    requires i <= |s| && Nested(stack, kept) && count > 0
    ensures Good(MemberValueState, stack + [Frame(kept, Count32(count - 1))]) && Good(Resumed(kept), stack)
    ensures Run(s, MemberValueState, stack + [Frame(kept, Count32(count - 1))], i, big) ==
            Then(AfterMember(s, i, count, big), s, Resumed(kept), stack, big)
    decreases |s| - i, 3
  {
    hide Run, SkipSpace, Good, Nested, Members, Then, Count32;
    NestedGood(stack, kept, Count32(count - 1), MemberValueState);
    CountNext(count);
    if Peek(s, i) == ',' as int {
      RunComma(s, MemberValueState, stack, kept, count, i, big);
      MembersFollow(s, MemberDelimiterState, stack, kept, count, SkipSpace(s, i + 1), big);
    } else if Peek(s, i) == '}' as int {
      RunClose(s, MemberValueState, stack, kept, Count32(count - 1), i, big);
    } else {
      RunMisses(s, MemberValueState, stack + [Frame(kept, Count32(count - 1))], i, big);
      ThenErr(ObjectMissCommaOrCurlyBracket, i, s, Resumed(kept), stack, big);
    }
  }

  lemma ThenErr(code: ErrorCode, offset: nat, s: Text, state: State, stack: seq<Frame>, big: TooBig)
    requires Good(state, stack)
    ensures Then(Err([], code, offset), s, state, stack, big) == Err([], code, offset)
  {
  }

  lemma {:induction false} ElementsFollow(s: Text, state: State, stack: seq<Frame>, kept: State, count: nat, i: nat, big: TooBig)
    requires i <= |s| && Nested(stack, kept)
    requires state == ElementDelimiterState || (state == ArrayInitialState && Peek(s, i) != ']' as int)
    ensures Good(state, stack + [Frame(kept, Count32(count))]) && Good(Resumed(kept), stack)
    ensures Run(s, state, stack + [Frame(kept, Count32(count))], i, big) == Then(Elements(s, i, count, big), s, Resumed(kept), stack, big)
    decreases |s| - i, 4
  {
    NestedGood(stack, kept, Count32(count), state);
    ValueFollows(s, state, stack + [Frame(kept, Count32(count))], i, big);
    var v := Value(s, i, big);
    hide Run, SkipSpace, Value, AfterElement, Good, Nested;
    if v.Ok? {
      AfterElementFollows(s, stack, kept, count + 1, SkipSpace(s, v.next), big);
      ThenPrefix(v.events, AfterElement(s, SkipSpace(s, v.next), count + 1, big), s, Resumed(kept), stack, big);
    }
  }

  lemma {:induction false} AfterElementFollows(s: Text, stack: seq<Frame>, kept: State, count: nat, i: nat, big: TooBig)
    requires i <= |s| && Nested(stack, kept) && count > 0
    ensures Good(ElementState, stack + [Frame(kept, Count32(count - 1))]) && Good(Resumed(kept), stack)
    ensures Run(s, ElementState, stack + [Frame(kept, Count32(count - 1))], i, big) ==
            Then(AfterElement(s, i, count, big), s, Resumed(kept), stack, big)
    decreases |s| - i, 3
  {
    hide Run, SkipSpace, Good, Nested, Elements, Then, Count32;
    NestedGood(stack, kept, Count32(count - 1), ElementState);
    CountNext(count);
    if Peek(s, i) == ',' as int {
      RunComma(s, ElementState, stack, kept, count, i, big);
      ElementsFollow(s, ElementDelimiterState, stack, kept, count, SkipSpace(s, i + 1), big);
    } else if Peek(s, i) == ']' as int {
      RunClose(s, ElementState, stack, kept, Count32(count - 1), i, big);
    } else {
      RunMisses(s, ElementState, stack + [Frame(kept, Count32(count - 1))], i, big);
      ThenErr(ArrayMissCommaOrSquareBracket, i, s, Resumed(kept), stack, big);
    }
  }

  lemma ScalarFollows(s: Text, state: State, stack: seq<Frame>, i: nat, big: TooBig)
    requires i <= |s| && Good(state, stack) && Expecting(state)
    requires state == StartState ==> Peek(s, i) != 0 && !Stray(Peek(s, i))
    requires state == ArrayInitialState ==> Peek(s, i) != ']' as int
    requires Peek(s, i) != '{' as int && Peek(s, i) != '[' as int
    ensures Run(s, state, stack, i, big) == Then(Scalar(s, i, big), s, Resumed(Kept(state)), stack, big)
  {
    hide Scalar, Transit, SkipSpace;
    if Peek(s, i) != 0 {
      if Stray(Peek(s, i)) { StrayInvalid(s, i, big); }
      TransitScalar(s, state, stack, i, big);
      RunStep(s, state, stack, i, big);
      hide Run;
    }
  }

  lemma TransitScalar(s: Text, state: State, stack: seq<Frame>, i: nat, big: TooBig)
    requires i < |s| && s[i] != 0 && Good(state, stack) && Expecting(state)
    requires state == StartState ==> !Stray(s[i])
    requires state == ArrayInitialState ==> s[i] != ']' as int
    requires s[i] != '{' as int && s[i] != '[' as int
    ensures Transit(s, state, stack, i, big) ==
            if Stray(s[i]) then Halt(ValueInvalid, i)
            else match Scalar(s, i, big)
              case Ok(events, next) => Move(events, Resumed(Kept(state)), stack, next)
              case Err(_, code, offset) => Halt(code, offset)
  {
    hide Closed, Scalar, ParseString, Bumped;
    var dst := Predict(state, Tokenize(s[i]));
    assert Stray(s[i]) ==> dst == ErrorState || (state == ElementDelimiterState && dst == ArrayFinishState);
    assert !Stray(s[i]) ==> dst == if state == StartState then ValueState else Kept(state);
    hide Predict, Tokenize;
  }

  lemma StrayInvalid(s: Text, i: nat, big: TooBig)
    requires i <= |s| && Stray(Peek(s, i))
    ensures Scalar(s, i, big) == Err([], ValueInvalid, i)
  {
  }

  /** The iterative parser and the recursive descent agree on every text that does not start with a stray bracket, comma or colon. */
  lemma ParsersAgree(s: Text, big: TooBig)
    requires !Stray(Peek(s, SkipSpace(s, 0)))
    ensures Iterate(s, big) == Document(s, big)
  {
    var i := SkipSpace(s, 0);
    if Peek(s, i) != 0 {
      ValueFollows(s, StartState, [], i, big);
      var v := Value(s, i, big);
      if v.Ok? {
        RunEnds(s, SkipSpace(s, v.next), big);
        assert v.events + [] == v.events;
      }
    }
  }

  lemma RunEnds(s: Text, i: nat, big: TooBig)
    requires i <= |s|
    ensures Run(s, FinishState, [], i, big) == EndOfDocument(s, [], i)
  {
  }

  /** On the others both fail at that character before any event, the one with an empty document and the other with an invalid value. */
  lemma ParsersDiffer(s: Text, big: TooBig)
    requires Stray(Peek(s, SkipSpace(s, 0)))
    ensures Iterate(s, big) == Err([], DocumentEmpty, SkipSpace(s, 0))
    ensures Document(s, big) == Err([], ValueInvalid, SkipSpace(s, 0))
  {
    var i := SkipSpace(s, 0);
    StrayInvalid(s, i, big);
    hide Scalar, SkipSpace;
  }
}
