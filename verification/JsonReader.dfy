/**
  GenericReader of reader.h: a stream position, the events delivered to the handler and the first error. Its recursive
  methods and its iterative loop are proved against the grammar and the automaton.
 */
module JsonReader {
  import opened Wrappers
  import opened Bytes
  import opened JsonSyntax
  import opened JsonGrammar
  import opened JsonAutomaton
  import Utf8

  /** The value of a longer run of digits is at least that of its beginning. */
  lemma {:induction false} DecimalGrows(s: Text, i: nat, j: nat, k: nat)
    requires i <= j <= k <= |s| && forall n | i <= n < k :: IsDigit(s[n])
    ensures DecimalValue(s, i, j) <= DecimalValue(s, i, k)
    decreases k
  {
    if j < k { DecimalGrows(s, i, j, k - 1); }
  }

  /** The signed integer of `width` values whose bits are the two's complement of `x`. */
  function Negated(x: nat, width: nat): (r: int)
    requires x < width
  {
    var bits := if x == 0 then 0 else width - x;
    if bits < width / 2 then bits else bits - width
  }

  /** A 32-bit count goes on from where it is, and tells the length of a string that is short enough. */
  lemma CountAdds(a: nat, b: nat)
    ensures Count32(Count32(a) + b) == Count32(a + b) && Count32(0) == 0
    ensures Count32(a + b) == a + b <==> a + b < TWO32
  {
  }

  lemma SmallModulo(x: nat, m: nat)
    requires x < m
    ensures x % m == x
  {
  }

  class Reader {
    const s: Text
    const big: TooBig
    var pos: nat
    var events: seq<Event>
    var error: Option<(ErrorCode, nat)>

    ghost predicate Valid()
      reads this
    {
      pos <= |s| && error.None?
    }

    constructor (s: Text, big: TooBig)
      ensures Valid() && this.s == s && this.big == big && pos == 0 && events == []
    {
      this.s, this.big := s, big;
      pos, events, error := 0, [], None;
    }

    /** The reader has done what `o` says, `before` being the events delivered earlier. */
    ghost predicate Did(o: Outcome, before: seq<Event>)
      reads this
    {
      pos <= |s| && events == before + o.events &&
      match o
      case Ok(_, next) => error.None? && pos == next
      case Err(_, code, offset) => error == Some((code, offset))
    }

    method SkipWhitespace()
      requires Valid()
      modifies this`pos
      ensures Valid() && pos == SkipSpace(s, old(pos))
    {
      while IsSpace(Peek(s, pos))
        invariant pos <= |s| && SkipSpace(s, pos) == SkipSpace(s, old(pos))
        decreases |s| - pos
      {
        pos := pos + 1;
      }
    }

    method Consume(c: byte) returns (ok: bool)
      requires Valid() && c != 0
      modifies this`pos
      ensures Valid() && ok == (Peek(s, old(pos)) == c) && pos == if ok then old(pos) + 1 else old(pos)
    {
      ok := Peek(s, pos) == c;
      if ok { pos := pos + 1; }
    }

    /** ParseNull, ParseTrue and ParseFalse, whose characters behind the first one are consumed in turn. */
    method ReadName(name: Text, event: Event)
      requires Valid() && pos < |s| && 0 !in name
      modifies this
      ensures Did(ParseName(s, old(pos), name, event), old(events))
    {
      ghost var whole := MatchName(s, pos + 1, name);
      pos := pos + 1;
      var k := 0;
      while k < |name|
        invariant k <= |name| && pos <= |s| && error.None? && events == old(events)
        invariant MatchName(s, pos, name[k..]) == whole
      {
        var ok := Consume(name[k]);
        assert name[k..][1..] == name[k + 1..];
        if !ok {
          error := Some((ValueInvalid, pos));
          return;
        }
        k := k + 1;
      }
      events := events + [event];
    }

    /** ParseHex4. */
    method ReadHex4() returns (r: Option<nat>)
      requires Valid()
      modifies this`pos
      ensures Valid() && r == Hex4(s, old(pos)) && (r.Some? ==> pos == old(pos) + 4)
    {
      var codepoint := 0;
      var k := 0;
      ghost var whole := Hex(s, pos, 4, 0);
      while k < 4
        invariant k <= 4 && pos == old(pos) + k <= |s| && error.None?
        invariant Hex(s, pos, 4 - k, codepoint) == whole
      {
        var d := HexDigit(Peek(s, pos));
        if d.None? {
          return None;
        }
        codepoint := 16 * codepoint + d.value;
        pos := pos + 1;
        k := k + 1;
      }
      r := Some(codepoint);
    }

    /** The escape sequence at the current backslash; the bytes it stands for, or an error at the backslash. */
    method ReadEscape() returns (value: Text)
      requires Valid() && pos < |s|
      modifies this`pos, this`error
      ensures pos <= |s|
      ensures match ParseEscape(s, old(pos))
              case EscapeOk(v, next) => error.None? && value == v && pos == next
              case EscapeErr(code) => error == Some((code, old(pos)))
    {
      hide Hex4, Utf8.Encode;
      var escapeOffset := pos;
      value := [];
      var e := Peek(s, pos + 1);
      pos := pos + 1;
      if Unescape(e) != 0 {
        pos := pos + 1;
        value := [Unescape(e)];
      } else if e == 'u' as int {
        pos := pos + 1;
        var high := ReadHex4();
        if high.None? {
          error := Some((StringUnicodeEscapeInvalidHex, escapeOffset));
          return;
        }
        if 0xD800 <= high.value <= 0xDBFF {
          var ok := Consume('\\' as int);
          if ok { ok := Consume('u' as int); }
          if !ok {
            error := Some((StringUnicodeSurrogateInvalid, escapeOffset));
            return;
          }
          var low := ReadHex4();
          if low.None? {
            error := Some((StringUnicodeEscapeInvalidHex, escapeOffset));
            return;
          }
          if low.value < 0xDC00 || low.value > 0xDFFF {
            error := Some((StringUnicodeSurrogateInvalid, escapeOffset));
            return;
          }
          value := Utf8.Encode((high.value - 0xD800) * 1024 + (low.value - 0xDC00) + 0x10000);
        } else {
          value := Utf8.Encode(high.value);
        }
      } else {
        error := Some((StringEscapeInvalid, escapeOffset));
      }
    }

    /** ParseString: decodes a string and delivers it as a value or as the name of a member. */
    method ReadString(isKey: bool)
      requires Valid() && pos < |s|
      modifies this
      ensures pos <= |s|
      ensures match ParseString(s, old(pos))
              case StringOk(value, next) =>
                error.None? && pos == next && events == old(events) + [if isKey then Key(value) else String(value)]
              case StringErr(code, offset) => error == Some((code, offset)) && events == old(events)
    {
      hide ParseEscape, Count32;
      ghost var whole := StringBody(s, pos + 1, []);
      var start := pos;
      pos := pos + 1;
      var str: Text := [];
      var length: nat := 0;
      CountAdds(0, 0);
      while true
        invariant pos <= |s| && error.None? && events == old(events) && length == Count32(|str|)
        invariant StringBody(s, pos, str) == whole
        decreases |s| - pos
      {
        var c := Peek(s, pos);
        if c == '\\' as int {
          var value := ReadEscape();
          if error.Some? {
            return;
          }
          CountAdds(|str|, |value|);
          str, length := str + value, Count32(length + |value|);
        } else if c == '"' as int {
          CountAdds(|str|, 1);
          length := Count32(length + 1);
          if length != |str| + 1 {
            error := Some((LengthWraps, start));
            return;
          }
          pos := pos + 1;
          events := events + [if isKey then Key(str) else String(str)];
          return;
        } else if c < 0x20 {
          error := Some((if c == 0 then StringMissQuotationMark else StringInvalidEncoding, pos));
          return;
        } else {
          CountAdds(|str|, 1);
          str, length := str + [c], Count32(length + 1);
          pos := pos + 1;
        }
      }
    }

    /**
      Adds digits to the number `acc0` that the digits from `first` on have given so far, in an unsigned integer of which
      `width` is one more than the maximum, until there is no digit or the next one would take it past 10 * cutoff + last.
      Nothing wraps.
     */
    method Accumulate(ghost first: nat, acc0: nat, cutoff: nat, last: nat, width: nat) returns (acc: nat, stopped: bool)
      requires Valid() && first < pos && forall k | first <= k < pos :: IsDigit(s[k])
      requires acc0 == DecimalValue(s, first, pos) <= 10 * cutoff + last < width && last <= 9
      modifies this`pos
      ensures Valid() && old(pos) <= pos && (forall k | first <= k < pos :: IsDigit(s[k]))
      ensures acc == DecimalValue(s, first, pos) <= 10 * cutoff + last
      ensures DigitsEnd(s, pos) == DigitsEnd(s, old(pos))
      ensures stopped <==> IsDigit(Peek(s, pos))
      ensures stopped ==> 10 * acc + DigitValue(s[pos]) > 10 * cutoff + last
    {
      acc, stopped := acc0, false;
      while IsDigit(Peek(s, pos))
        invariant Valid() && old(pos) <= pos && forall k | first <= k < pos :: IsDigit(s[k])
        invariant acc == DecimalValue(s, first, pos) <= 10 * cutoff + last
        invariant DigitsEnd(s, pos) == DigitsEnd(s, old(pos))
        decreases |s| - pos
      {
        if acc >= cutoff {
          if acc != cutoff || Peek(s, pos) > '0' as int + last {
            return acc, true;
          }
        }
        ghost var next := acc * 10 + DigitValue(s[pos]);
        assert next <= 10 * cutoff + last;
        SmallModulo(next, width);
        acc := (acc * 10 + DigitValue(Peek(s, pos))) % width;
        pos := pos + 1;
        assert acc == DecimalValue(s, first, pos);
      }
    }

    /**
      The integer part of a number, accumulated in 32 bits, then in 64 bits, then given up to a double. The result is the
      event in the narrowest of the types offered for the sign, or None when the number needs a double.
     */
    method ReadInteger(minus: bool) returns (event: Option<Event>)
      requires Valid()
      modifies this`pos, this`error
      ensures pos <= |s| && old(pos) <= pos
      ensures match IntegerEnd(s, old(pos))
              case None => error == Some((ValueInvalid, old(pos))) && pos == old(pos)
              case Some(end) => error.None? && pos == end && event == IntegerEvent(minus, DecimalValue(s, old(pos), end))
    {
      ghost var first := pos;
      event := None;
      if Peek(s, pos) == '0' as int {
        pos := pos + 1;
        event := Some(if minus then Int(Negated(0, 0x1_0000_0000)) else Uint(0));
        assert DecimalValue(s, first, pos) == 0;
      } else if IsDigit(Peek(s, pos)) {
        DigitsAreDigits(s, first);
        event := ReadDigitsAsInteger(minus);
      } else {
        error := Some((ValueInvalid, pos));
      }
    }

    method ReadDigitsAsInteger(minus: bool) returns (event: Option<Event>)
      requires Valid() && IsDigit(Peek(s, pos)) && (forall k | pos <= k < DigitsEnd(s, pos) :: IsDigit(s[k]))
      modifies this`pos
      ensures Valid() && pos == DigitsEnd(s, old(pos))
      ensures event == IntegerEvent(minus, DecimalValue(s, old(pos), DigitsEnd(s, old(pos))))
    {
      ghost var first, end := pos, DigitsEnd(s, pos);
      var i := DigitValue(Peek(s, pos));
      pos := pos + 1;
      assert DecimalValue(s, first, first) == 0 && DecimalValue(s, first, pos) == i;
      var use64bit;
      if minus {
        i, use64bit := Accumulate(first, i, 214748364, 8, 0x1_0000_0000);
      } else {
        i, use64bit := Accumulate(first, i, 429496729, 5, 0x1_0000_0000);
      }
      if !use64bit {
        return Some(if minus then Int(Negated(i, 0x1_0000_0000)) else Uint(i));
      }
      event := ReadDigitsAsWide(minus, first, i);
    }

    /** The digits from where 32 bits no longer suffice. */
    method ReadDigitsAsWide(minus: bool, ghost first: nat, i: nat) returns (event: Option<Event>)
      requires Valid() && first < pos && (forall k | first <= k < DigitsEnd(s, pos) :: IsDigit(s[k])) && IsDigit(Peek(s, pos))
      requires (forall k | first <= k < pos :: IsDigit(s[k])) && i == DecimalValue(s, first, pos) <= 0xFFFF_FFFF
      requires 10 * i + DigitValue(s[pos]) > if minus then 0x8000_0000 else 0xFFFF_FFFF
      modifies this`pos
      ensures Valid() && pos == DigitsEnd(s, old(pos))
      ensures event == IntegerEvent(minus, DecimalValue(s, first, DigitsEnd(s, old(pos))))
    {
      ghost var narrow, end := pos, DigitsEnd(s, pos);
      var i64, useDouble;
      assert DecimalValue(s, first, narrow + 1) == 10 * i + DigitValue(s[narrow]);
      DecimalGrows(s, first, narrow + 1, end);
      if minus {
        i64, useDouble := Accumulate(first, i, 0x0CCC_CCCC_CCCC_CCCC, 8, 0x1_0000_0000_0000_0000);
      } else {
        i64, useDouble := Accumulate(first, i, 0x1999_9999_9999_9999, 5, 0x1_0000_0000_0000_0000);
      }
      if !useDouble {
        return Some(if minus then Int64(Negated(i64, 0x1_0000_0000_0000_0000)) else Uint64(i64));
      }
      assert DecimalValue(s, first, pos + 1) == 10 * i64 + DigitValue(s[pos]);
      DecimalGrows(s, first, pos + 1, end);
      ReadDigits();
      event := None;
    }

    method ReadDigits()
      requires Valid()
      modifies this`pos
      ensures Valid() && pos == DigitsEnd(s, old(pos))
    {
      while IsDigit(Peek(s, pos))
        invariant Valid() && DigitsEnd(s, pos) == DigitsEnd(s, old(pos))
        decreases |s| - pos
      {
        pos := pos + 1;
      }
    }

    /** The fraction that may follow the integer part; true when there is one. */
    method ReadFraction() returns (present: bool)
      requires Valid()
      modifies this`pos, this`error
      ensures pos <= |s| && (present <==> Peek(s, old(pos)) == '.' as int)
      ensures match FractionEnd(s, old(pos))
              case ScanErr(code, offset) => error == Some((code, offset))
              case ScanOk(next) => error.None? && pos == next && (present <==> next > old(pos))
    {
      present := Consume('.' as int);
      if present {
        if !IsDigit(Peek(s, pos)) {
          error := Some((NumberMissFraction, pos));
          return;
        }
        ReadDigits();
      }
    }

    /** The exponent that may follow; true when there is one. */
    method ReadExponent() returns (present: bool)
      requires Valid()
      modifies this`pos, this`error
      ensures pos <= |s| && (present <==> Peek(s, old(pos)) == 'e' as int || Peek(s, old(pos)) == 'E' as int)
      ensures match ExponentEnd(s, old(pos))
              case ScanErr(code, offset) => error == Some((code, offset))
              case ScanOk(next) => error.None? && pos == next && (present <==> next > old(pos))
    {
      present := Consume('e' as int);
      if !present { present := Consume('E' as int); }
      if present {
        var sign := Consume('+' as int);
        if !sign { sign := Consume('-' as int); }
        if !IsDigit(Peek(s, pos)) {
          error := Some((NumberMissExponent, pos));
          return;
        }
        ReadDigits();
      }
    }

    /** ParseNumber. */
    method ReadNumber()
      requires Valid()
      modifies this
      ensures Did(ParseNumber(s, old(pos), big), old(events))
    {
      hide DecimalValue, IntegerEvent, IntegerEnd, FractionEnd, ExponentEnd;
      var startOffset := pos;
      var minus := Consume('-' as int);
      var event := ReadInteger(minus);
      if error.Some? {
        return;
      }
      var fraction := ReadFraction();
      if error.Some? {
        return;
      }
      var exponent := ReadExponent();
      if error.Some? {
        return;
      }
      if !fraction && !exponent && event.Some? {
        events := events + [event.value];
      } else if big(s[startOffset..pos]) {
        error := Some((NumberTooBig, startOffset));
      } else {
        events := events + [Double(s[startOffset..pos])];
      }
    }

    /** ParseValue. */
    method ReadValue()
      requires Valid()
      modifies this
      ensures Did(Value(s, old(pos), big), old(events))
      decreases |s| - pos, 2
    {
      hide ParseObject, ParseArray, ParseNumber, ParseName, ParseString;
      var c := Peek(s, pos);
      if c == 'n' as int { ReadName(NULL_TAIL, Null); }
      else if c == 't' as int { ReadName(TRUE_TAIL, Bool(true)); }
      else if c == 'f' as int { ReadName(FALSE_TAIL, Bool(false)); }
      else if c == '"' as int { ReadString(false); }
      else if c == '{' as int { ReadObject(); }
      else if c == '[' as int { ReadArray(); }
      else { ReadNumber(); }
    }

    /** The name, the colon and the value of a member, and the white space behind it. */
    method ReadMember()
      requires Valid()
      modifies this
      ensures Did(Member(s, old(pos), big), old(events))
      decreases |s| - pos, 0
    {
      hide Value, ParseString, SkipSpace;
      if Peek(s, pos) != '"' as int {
        error := Some((ObjectMissName, pos));
        return;
      }
      ReadString(true);
      if error.Some? {
        return;
      }
      SkipWhitespace();
      var colon := Consume(':' as int);
      if !colon {
        error := Some((ObjectMissColon, pos));
        return;
      }
      SkipWhitespace();
      ReadValue();
      if error.Some? {
        return;
      }
      SkipWhitespace();
    }

    /** ParseObject: the members one after the other. */
    method ReadObject()
      requires Valid() && pos < |s| && s[pos] == '{' as int
      modifies this
      ensures Did(ParseObject(s, old(pos), big), old(events))
      decreases |s| - pos, 1
    {
      hide SkipSpace, Member, AfterMember;
      ghost var whole := ParseObject(s, pos, big);
      pos := pos + 1;
      events := events + [StartObject];
      SkipWhitespace();
      var empty := Consume('}' as int);
      if empty {
        events := events + [EndObject(0)];
        assert [StartObject] + [EndObject(0)] == [StartObject, EndObject(0)];
        return;
      }
      var memberCount := 0;
      ghost var done := [StartObject];
      while true
        invariant Valid() && pos > old(pos) && events == old(events) + done
        invariant whole == Prefix(done, Members(s, pos, memberCount, big))
        decreases |s| - pos
      {
        ghost var m := Member(s, pos, big);
        ReadMember();
        if error.Some? {
          return;
        }
        memberCount := memberCount + 1;
        PrefixPrefix(done, m.events, AfterMember(s, pos, memberCount, big));
        done := done + m.events;
        var more := ReadAfterMember(memberCount);
        if !more {
          return;
        }
      }
    }

    /** What follows a member: a comma and another one, or the end of the object. */
    method ReadAfterMember(count: nat) returns (more: bool)
      requires Valid()
      modifies this
      ensures more ==> Valid() && pos > old(pos) && events == old(events) && AfterMember(s, old(pos), count, big) == Members(s, pos, count, big)
      ensures !more ==> Did(AfterMember(s, old(pos), count, big), old(events))
    {
      hide SkipSpace, Members;
      more := false;
      if Peek(s, pos) == ',' as int {
        pos := pos + 1;
        SkipWhitespace();
        more := true;
      } else if Peek(s, pos) == '}' as int {
        pos := pos + 1;
        events := events + [EndObject(Count32(count))];
      } else {
        error := Some((ObjectMissCommaOrCurlyBracket, pos));
      }
    }

    /** ParseArray: the elements one after the other. */
    method ReadArray()
      requires Valid() && pos < |s| && s[pos] == '[' as int
      modifies this
      ensures Did(ParseArray(s, old(pos), big), old(events))
      decreases |s| - pos, 1
    {
      hide Value, SkipSpace, Elements, AfterElement;
      ghost var whole := ParseArray(s, pos, big);
      pos := pos + 1;
      events := events + [StartArray];
      SkipWhitespace();
      var empty := Consume(']' as int);
      if empty {
        events := events + [EndArray(0)];
        assert [StartArray] + [EndArray(0)] == [StartArray, EndArray(0)];
        return;
      }
      var elementCount := 0;
      ghost var done := [StartArray];
      while true
        invariant Valid() && pos > old(pos) && events == old(events) + done
        invariant whole == Prefix(done, Elements(s, pos, elementCount, big))
        decreases |s| - pos
      {
        ghost var v := Value(s, pos, big);
        ElementsUnfold(s, pos, elementCount, big);
        ReadValue();
        if error.Some? {
          return;
        }
        SkipWhitespace();
        elementCount := elementCount + 1;
        PrefixPrefix(done, v.events, AfterElement(s, pos, elementCount, big));
        done := done + v.events;
        var more := ReadAfterElement(elementCount);
        if !more {
          return;
        }
      }
    }

    /** What follows an element: a comma and another one, or the end of the array. */
    method ReadAfterElement(count: nat) returns (more: bool)
      requires Valid()
      modifies this
      ensures more ==> Valid() && pos > old(pos) && events == old(events) && AfterElement(s, old(pos), count, big) == Elements(s, pos, count, big)
      ensures !more ==> Did(AfterElement(s, old(pos), count, big), old(events))
    {
      hide SkipSpace, Elements;
      more := Consume(',' as int);
      if more {
        SkipWhitespace();
        return;
      }
      var bracket := Consume(']' as int);
      if bracket {
        events := events + [EndArray(Count32(count))];
      } else {
        error := Some((ArrayMissCommaOrSquareBracket, pos));
      }
    }

    /** Parse without the iterative flag. */
    method Parse()
      requires Valid() && pos == 0
      modifies this
      ensures Did(Document(s, big), old(events))
    {
      hide Value, SkipSpace;
      SkipWhitespace();
      if Peek(s, pos) == 0 {
        error := Some((DocumentEmpty, pos));
        return;
      }
      ReadValue();
      if error.Some? {
        return;
      }
      SkipWhitespace();
      if Peek(s, pos) != 0 {
        error := Some((DocumentRootNotSingular, pos));
      }
    }

    /** Predict and Transit, and HandleError where they fail. */
    method TakeTransition(src: State, stack: seq<Frame>) returns (failed: bool, state: State, stack': seq<Frame>)
      requires Valid() && pos < |s| && s[pos] != 0 && Good(src, stack)
      modifies this
      ensures pos <= |s|
      ensures match Transit(s, src, stack, old(pos), big)
              case Halt(code, offset) => failed && error == Some((code, offset)) && events == old(events)
              case Move(evs, st, stk, next) =>
                !failed && error.None? && events == old(events) + evs && pos == next && state == st && stack' == stk
    {
      hide Scalar, ParseString, Value, GoodStack, Closed, Bumped;
      failed, state, stack' := false, Predict(src, Tokenize(Peek(s, pos))), stack;
      if state == ErrorState {
        failed, error := true, Some((ErrorIn(src), pos));
      } else if state == ObjectInitialState || state == ArrayInitialState {
        stack' := stack + [Frame(Kept(src), 0)];
        events := events + [if state == ObjectInitialState then StartObject else StartArray];
        pos := pos + 1;
      } else if state == MemberKeyState {
        ReadString(true);
        failed := error.Some?;
      } else if state == KeyValueDelimiterState {
        pos := pos + 1;
      } else if state == MemberDelimiterState || state == ElementDelimiterState {
        pos := pos + 1;
        stack' := Bumped(stack);
      } else if state == ObjectFinishState {
        failed, state, stack' := TakeEnd(src == MemberDelimiterState, src == MemberValueState, true, stack);
      } else if state == ArrayFinishState {
        failed, state, stack' := TakeEnd(src == ElementDelimiterState, src == ElementState, false, stack);
      } else {
        ValueIsScalar(s, pos, big);
        ReadValue();
        failed := error.Some?;
        if state == ValueState { state := FinishState; }
      }
    }

    /** The closing bracket of an object or an array, which a comma must not precede. */
    method TakeEnd(afterComma: bool, last: bool, isObject: bool, stack: seq<Frame>) returns (failed: bool, state: State, stack': seq<Frame>)
      requires Valid() && pos < |s| && stack != [] && GoodStack(stack)
      modifies this
      ensures pos <= |s| && failed == afterComma
      ensures failed ==> error == Some((if isObject then ObjectMissName else ValueInvalid, old(pos))) && events == old(events)
      ensures !failed ==> error.None? && pos == old(pos) + 1
      ensures !failed ==> old(events) <= events
      ensures !failed ==> Closed(stack, old(pos), last, isObject) == Move(events[|old(events)|..], state, stack', pos)
    {
      failed, state, stack' := afterComma, ErrorState, stack;
      if afterComma {
        error := Some((if isObject then ObjectMissName else ValueInvalid, pos));
        return;
      }
      var top := stack[|stack| - 1];
      var count := Count32(if last then top.count + 1 else top.count);
      state, stack' := Resumed(top.state), stack[..|stack| - 1];
      events := events + [if isObject then EndObject(count) else EndArray(count)];
      pos := pos + 1;
    }

    /** Parse with the iterative flag: one transition at a time. */
    method IterativeParse()
      requires Valid() && pos == 0
      modifies this
      ensures Did(Iterate(s, big), old(events))
    {
      hide SkipSpace, Transit, Prefix;
      SkipWhitespace();
      var state, stack := StartState, [];
      ghost var whole := Iterate(s, big);
      ghost var done: seq<Event> := [];
      PrefixNothing(whole);
      while Peek(s, pos) != 0
        invariant Valid() && Good(state, stack) && events == old(events) + done
        invariant whole == Prefix(done, Run(s, state, stack, pos, big))
        decreases |s| - pos
      {
        RunStep(s, state, stack, pos, big);
        ghost var m := Transit(s, state, stack, pos, big);
        var failed, state', stack' := TakeTransition(state, stack);
        if failed {
          PrefixErr(done, m.code, m.offset);
          return;
        }
        state, stack := state', stack';
        SkipWhitespace();
        PrefixPrefix(done, m.events, Run(s, state, stack, pos, big));
        done := done + m.events;
      }
      if state != FinishState {
        error := Some((ErrorIn(state), pos));
        PrefixErr(done, ErrorIn(state), pos);
      } else {
        PrefixOk(done, pos);
      }
    }
  }

  lemma ElementsUnfold(s: Text, i: nat, count: nat, big: TooBig)
    requires i <= |s|
    ensures var v := Value(s, i, big);
            Elements(s, i, count, big) == if v.Err? then v else Prefix(v.events, AfterElement(s, SkipSpace(s, v.next), count + 1, big))
  {
  }

  lemma ValueIsScalar(s: Text, i: nat, big: TooBig)
    requires i <= |s|
    ensures Peek(s, i) != '{' as int && Peek(s, i) != '[' as int ==> Value(s, i, big) == Scalar(s, i, big)
  {
  }

  lemma PrefixErr(done: seq<Event>, code: ErrorCode, offset: nat)
    ensures Prefix(done, Err([], code, offset)) == Err(done, code, offset)
  {
  }

  lemma PrefixOk(done: seq<Event>, next: nat)
    ensures Prefix(done, Ok([], next)) == Ok(done, next)
  {
  }
}
