/**
  The numbers of JSON as section 6 of RFC 8259 writes them: a sign, an integer part without leading zeros, a fraction and an
  exponent. What reader.h reads is proved to be what was written, in both directions.
 */
module JsonNumeral {
  import opened Wrappers
  import opened Bytes
  import opened JsonSyntax

  /** The mark of an exponent, its sign if it has one, and its digits. */
  datatype Exponent = Exponent(mark: byte, sign: Text, digits: Text)

  datatype Numeral = Numeral(minus: bool, whole: Text, fraction: Option<Text>, exponent: Option<Exponent>)

  predicate AreDigits(t: Text) {
    |t| > 0 && forall k | 0 <= k < |t| :: 48 <= t[k] <= 57
  }

  predicate WellFormed(n: Numeral) {
    && AreDigits(n.whole) && (n.whole[0] == 48 ==> |n.whole| == 1)
    && (n.fraction.Some? ==> AreDigits(n.fraction.value))
    && (n.exponent.Some? ==>
          && (n.exponent.value.mark == 101 || n.exponent.value.mark == 69)
          && (n.exponent.value.sign == [] || n.exponent.value.sign == [43] || n.exponent.value.sign == [45])
          && AreDigits(n.exponent.value.digits))
  }

  function FractionText(f: Option<Text>): (r: Text) {
    match f
    case None => []
    case Some(digits) => [46] + digits
  }

  function ExponentText(e: Option<Exponent>): (r: Text) {
    match e
    case None => []
    case Some(Exponent(mark, sign, digits)) => [mark] + sign + digits
  }

  function NumeralText(n: Numeral): (r: Text) {
    (if n.minus then [45] else []) + n.whole + FractionText(n.fraction) + ExponentText(n.exponent)
  }

  /** The number that digits write. */
  function Amount(digits: Text): (v: nat)
    requires digits == [] || AreDigits(digits)
  {
    if digits == [] then 0
    else
      var n := |digits| - 1;
      10 * (if n == 0 then 0 else Amount(digits[..n])) + (digits[n] - 48)
  }

  /** An integer that fits is given as the narrowest type that reader.h has for its sign: 32 bits, or 64. */
  function NumeralEvent(n: Numeral): (r: Option<Event>)
    requires WellFormed(n)
  {
    if n.fraction.Some? || n.exponent.Some? then None
    else
      var amount: int := Amount(n.whole);
      var v := if n.minus then -amount else amount;
      if n.minus then
        if v >= -2147483648 then Some(Int(v)) else if v >= -9223372036854775808 then Some(Int64(v)) else None
      else
        if v <= 4294967295 then Some(Uint(v)) else if v <= 18446744073709551615 then Some(Uint64(v)) else None
  }

  /** What is to be made of a numeral at `i`: its event, or a double of its text unless that is too big. */
  function Reading(n: Numeral, i: nat, big: TooBig): (r: Outcome)
    requires WellFormed(n)
  {
    match NumeralEvent(n)
    case Some(event) => Ok([event], i + |NumeralText(n)|)
    case None => if big(NumeralText(n)) then Err([], NumberTooBig, i) else Ok([Double(NumeralText(n))], i + |NumeralText(n)|)
  }

  /** A character that does not go on with a number. */
  predicate Ends(c: byte) {
    !(48 <= c <= 57) && c != 46 && c != 101 && c != 69
  }

  // ---------------------------------------------------------------------------------------------
  // Digits
  // ---------------------------------------------------------------------------------------------

  lemma {:induction false} AmountRead(s: Text, i: nat, digits: Text)
    requires AreDigits(digits) && At(s, i, digits)
    ensures (forall k | i <= k < i + |digits| :: IsDigit(s[k])) && DecimalValue(s, i, i + |digits|) == Amount(digits)
    decreases |digits|
  {
    forall k | i <= k < i + |digits| ensures IsDigit(s[k]) { AtIndex(s, i, digits, k - i); }
    var n := |digits| - 1;
    AtIndex(s, i, digits, n);
    if n > 0 {
      var init := digits[..n];
      assert digits == init + [digits[n]];
      AtConcat(s, i, init, [digits[n]]);
      AmountRead(s, i, init);
    } else {
      assert DecimalValue(s, i, i) == 0;
    }
  }

  lemma {:induction false} DigitsEndAt(s: Text, i: nat, j: nat)
    requires i <= j <= |s| && (forall k | i <= k < j :: IsDigit(s[k])) && !IsDigit(Peek(s, j))
    ensures DigitsEnd(s, i) == j
    decreases j - i
  {
    if i < j { DigitsEndAt(s, i + 1, j); }
  }

  /** Digits with something else behind them. */
  lemma DigitsRead(s: Text, i: nat, digits: Text)
    requires AreDigits(digits) && At(s, i, digits) && !IsDigit(Peek(s, i + |digits|))
    ensures i < |s| && IsDigit(s[i]) && DigitsEnd(s, i) == i + |digits|
  {
    AmountRead(s, i, digits);
    DigitsEndAt(s, i, i + |digits|);
  }

  /** The digits that a scan passes over. */
  lemma DigitsFound(s: Text, i: nat)
    requires i <= |s| && IsDigit(Peek(s, i))
    ensures i < DigitsEnd(s, i) <= |s| && AreDigits(s[i..DigitsEnd(s, i)]) && At(s, i, s[i..DigitsEnd(s, i)])
  {
    DigitsAreDigits(s, i);
    var t := s[i..DigitsEnd(s, i)];
    forall k | 0 <= k < |t| ensures 48 <= t[k] <= 57 { assert IsDigit(s[i + k]); }
  }

  // ---------------------------------------------------------------------------------------------
  // A numeral is read as what it writes
  // ---------------------------------------------------------------------------------------------

  lemma WholeReads(s: Text, i: nat, whole: Text)
    requires AreDigits(whole) && (whole[0] == 48 ==> |whole| == 1) && At(s, i, whole) && !IsDigit(Peek(s, i + |whole|))
    ensures i <= |s| && IntegerEnd(s, i) == Some(i + |whole|) && DecimalValue(s, i, i + |whole|) == Amount(whole)
  {
    AtIndex(s, i, whole, 0);
    AmountRead(s, i, whole);
    DigitsRead(s, i, whole);
    hide DecimalValue, Amount;
  }

  lemma FractionReads(s: Text, i: nat, f: Option<Text>)
    requires i <= |s| && (f.Some? ==> AreDigits(f.value)) && At(s, i, FractionText(f))
    requires var c := Peek(s, i + |FractionText(f)|); !IsDigit(c) && c != 46
    ensures FractionEnd(s, i) == ScanOk(i + |FractionText(f)|)
  {
    hide At;
    if f.Some? {
      AtConcat(s, i, [46], f.value);
      AtByte(s, i, 46);
      DigitsRead(s, i + 1, f.value);
    }
  }

  lemma ExponentReads(s: Text, i: nat, e: Option<Exponent>, n: Numeral)
    requires i <= |s| && n.exponent == e && WellFormed(n) && At(s, i, ExponentText(e)) && Ends(Peek(s, i + |ExponentText(e)|))
    ensures ExponentEnd(s, i) == ScanOk(i + |ExponentText(e)|)
  {
    hide At;
    if e.Some? {
      var x := e.value;
      AtConcat(s, i, [x.mark] + x.sign, x.digits);
      AtConcat(s, i, [x.mark], x.sign);
      AtByte(s, i, x.mark);
      var k := i + 1 + |x.sign|;
      DigitsRead(s, k, x.digits);
      if x.sign != [] { AtByte(s, i + 1, x.sign[0]); }
    }
  }

  /** What the characters behind the parts of a numeral are. */
  lemma PartStarts(n: Numeral)
    requires WellFormed(n)
    ensures var f, e := FractionText(n.fraction), ExponentText(n.exponent);
            && (f != [] ==> f[0] == 46) && (e != [] ==> e[0] == 101 || e[0] == 69)
  {
  }

  lemma NumeralParts(s: Text, i: nat, n: Numeral) returns (first: nat, end: nat, mid: nat)
    requires WellFormed(n) && At(s, i, NumeralText(n)) && Ends(Peek(s, i + |NumeralText(n)|))
    ensures Scanned(s, i, first, end, mid, i + |NumeralText(n)|) && n.minus == (Peek(s, i) == 45) && At(s, first, n.whole)
    ensures end == first + |n.whole| && i + |NumeralText(n)| == end + |FractionText(n.fraction)| + |ExponentText(n.exponent)|
  {
    hide At, DecimalValue, Amount, IntegerEnd, FractionEnd, ExponentEnd, FractionText, ExponentText;
    var sign, f, e := if n.minus then [45] else [], FractionText(n.fraction), ExponentText(n.exponent);
    AtConcat(s, i, sign + n.whole + f, e);
    AtConcat(s, i, sign + n.whole, f);
    AtConcat(s, i, sign, n.whole);
    first := i + |sign|;
    end := first + |n.whole|;
    mid := end + |f|;
    Within(s, mid, e);
    Within(s, end, f);
    FirstByte(s, i, n.minus, n.whole);
    PartStarts(n);
    Behind(s, mid, e);
    Behind(s, end, f);
    ExponentReads(s, mid, n.exponent, n);
    FractionReads(s, end, n.fraction);
    WholeReads(s, first, n.whole);
  }

  lemma Within(s: Text, i: nat, t: Text)
    requires At(s, i, t)
    ensures i + |t| <= |s|
  {
  }

  lemma Behind(s: Text, i: nat, t: Text)
    requires At(s, i, t)
    ensures t != [] ==> Peek(s, i) == t[0]
  {
    if t != [] { AtIndex(s, i, t, 0); }
  }

  lemma FirstByte(s: Text, i: nat, minus: bool, whole: Text)
    requires AreDigits(whole) && At(s, i, if minus then [45] else []) && At(s, if minus then i + 1 else i, whole)
    ensures i < |s| && (s[i] == 45 <==> minus)
  {
    if minus {
      AtByte(s, i, 45);
    } else {
      AtIndex(s, i, whole, 0);
    }
  }

  lemma SameEvent(n: Numeral)
    requires WellFormed(n) && n.fraction.None? && n.exponent.None?
    ensures IntegerEvent(n.minus, Amount(n.whole)) == NumeralEvent(n)
  {
    hide Amount;
  }

  /** A numeral is read as its value, or as a double of its text unless that is too big. */
  lemma NumeralReads(s: Text, i: nat, n: Numeral, big: TooBig)
    requires WellFormed(n) && At(s, i, NumeralText(n)) && Ends(Peek(s, i + |NumeralText(n)|))
    ensures i < |s| && (s[i] == 45 || 48 <= s[i] <= 57)
    ensures ParseNumber(s, i, big) == Reading(n, i, big)
  {
    hide Amount, Scanned, FractionText, ExponentText, NumeralText, ParseNumber, Reading, At, WellFormed;
    var first, end, mid := NumeralParts(s, i, n);
    NumeralStart(s, i, n);
    NoParts(n);
    NumberIs(s, i, n, first, end, mid, big);
  }

  /** The parts of a number have been scanned. */
  ghost predicate Scanned(s: Text, i: nat, first: nat, end: nat, mid: nat, next: nat) {
    && i <= |s| && first == (if Peek(s, i) == 45 then i + 1 else i) <= |s| && IntegerEnd(s, first) == Some(end)
    && FractionEnd(s, end) == ScanOk(mid) && ExponentEnd(s, mid) == ScanOk(next)
  }

  lemma ScannedRange(s: Text, i: nat, first: nat, end: nat, mid: nat, next: nat)
    requires Scanned(s, i, first, end, mid, next)
    ensures i <= first < end <= mid <= next <= |s| && forall k | first <= k < end :: IsDigit(s[k])
  {
  }

  lemma ScannedNumber(s: Text, i: nat, first: nat, end: nat, mid: nat, next: nat, v: nat, big: TooBig)
    requires Scanned(s, i, first, end, mid, next) && i <= next <= |s|
    requires first <= end <= |s| && (forall k | first <= k < end :: IsDigit(s[k])) && DecimalValue(s, first, end) == v
    ensures var event := if next == end then IntegerEvent(Peek(s, i) == 45, v) else None;
            ParseNumber(s, i, big) ==
            if event.Some? then Ok([event.value], next)
            else if big(s[i..next]) then Err([], NumberTooBig, i) else Ok([Double(s[i..next])], next)
  {
    hide DecimalValue, IntegerEnd, FractionEnd, ExponentEnd, IntegerEvent;
  }

  lemma NumberIs(s: Text, i: nat, n: Numeral, first: nat, end: nat, mid: nat, big: TooBig)
    requires WellFormed(n) && At(s, i, NumeralText(n)) && n.minus == (Peek(s, i) == 45)
    requires Scanned(s, i, first, end, mid, i + |NumeralText(n)|) && At(s, first, n.whole) && end == first + |n.whole|
    requires i + |NumeralText(n)| == end <==> n.fraction.None? && n.exponent.None?
    ensures ParseNumber(s, i, big) == Reading(n, i, big)
  {
    ScannedRange(s, i, first, end, mid, i + |NumeralText(n)|);
    AmountRead(s, first, n.whole);
    TextIs(s, i, NumeralText(n));
    hide Amount, DecimalValue, Scanned, IntegerEvent, NumeralText, NumeralEvent, ParseNumber, At, WellFormed;
    ScannedNumber(s, i, first, end, mid, i + |NumeralText(n)|, Amount(n.whole), big);
    if n.fraction.None? && n.exponent.None? { SameEvent(n); } else { NoEvent(n); }
  }

  lemma NoEvent(n: Numeral)
    requires WellFormed(n) && (n.fraction.Some? || n.exponent.Some?)
    ensures NumeralEvent(n).None?
  {
  }

  lemma NumeralStart(s: Text, i: nat, n: Numeral)
    requires WellFormed(n) && At(s, i, NumeralText(n))
    ensures i < |s| && (s[i] == 45 || 48 <= s[i] <= 57)
  {
    AtIndex(s, i, NumeralText(n), 0);
  }

  lemma NoParts(n: Numeral)
    requires WellFormed(n)
    ensures |FractionText(n.fraction)| + |ExponentText(n.exponent)| == 0 <==> n.fraction.None? && n.exponent.None?
  {
  }

  // ---------------------------------------------------------------------------------------------
  // What is read was written
  // ---------------------------------------------------------------------------------------------

  lemma WholeWritten(s: Text, i: nat, end: nat)
    requires i <= |s| && IntegerEnd(s, i) == Some(end)
    ensures i < end <= |s| && AreDigits(s[i..end]) && (s[i] == 48 ==> end == i + 1) && At(s, i, s[i..end])
  {
    if Peek(s, i) == 48 { assert s[i..end] == [s[i]]; } else { DigitsFound(s, i); }
  }

  lemma FractionWritten(s: Text, i: nat) returns (f: Option<Text>)
    requires i <= |s| && FractionEnd(s, i).ScanOk?
    ensures (f.Some? ==> AreDigits(f.value)) && At(s, i, FractionText(f)) && FractionEnd(s, i).next == i + |FractionText(f)|
  {
    f := None;
    if Peek(s, i) == 46 {
      DigitsFound(s, i + 1);
      f := Some(s[i + 1..DigitsEnd(s, i + 1)]);
      AtConcat(s, i, [46], f.value);
      AtByte(s, i, 46);
    }
  }

  ghost predicate ExponentGood(e: Option<Exponent>) {
    e.Some? ==>
      && (e.value.mark == 101 || e.value.mark == 69)
      && (e.value.sign == [] || e.value.sign == [43] || e.value.sign == [45])
      && AreDigits(e.value.digits)
  }

  lemma ExponentWritten(s: Text, i: nat) returns (e: Option<Exponent>)
    requires i <= |s| && ExponentEnd(s, i).ScanOk?
    ensures ExponentGood(e) && At(s, i, ExponentText(e)) && ExponentEnd(s, i).next == i + |ExponentText(e)|
  {
    hide At;
    e := None;
    NothingAt(s, i);
    var c := Peek(s, i);
    if c == 101 || c == 69 {
      var d := Peek(s, i + 1);
      var sign := if d == 43 || d == 45 then [d] else [];
      var k := i + 1 + |sign|;
      DigitsFound(s, k);
      var digits := s[k..DigitsEnd(s, k)];
      e := Some(Exponent(c, sign, digits));
      AtConcat(s, i, [c] + sign, digits);
      AtConcat(s, i, [c], sign);
      AtByte(s, i, c);
      if sign != [] { AtByte(s, i + 1, d); } else { NothingAt(s, i + 1); }
    }
  }

  lemma NumberScans(s: Text, i: nat, big: TooBig) returns (first: nat, end: nat, mid: nat, next: nat)
    requires i <= |s| && (ParseNumber(s, i, big).Ok? || ParseNumber(s, i, big).code == NumberTooBig)
    ensures Scanned(s, i, first, end, mid, next)
  {
    hide DecimalValue, IntegerEnd, IntegerEvent;
    first := if Peek(s, i) == 45 then i + 1 else i;
    end := IntegerEnd(s, first).value;
    mid := FractionEnd(s, end).next;
    next := ExponentEnd(s, mid).next;
  }

  /** The text of a number that is scanned to its end. */
  lemma NumeralScanned(s: Text, i: nat, first: nat, end: nat, mid: nat, next: nat) returns (n: Numeral)
    requires Scanned(s, i, first, end, mid, next)
    ensures WellFormed(n) && At(s, i, NumeralText(n)) && i + |NumeralText(n)| == next && n.minus == (Peek(s, i) == 45)
    ensures At(s, first, n.whole) && end == first + |n.whole| && (next == end <==> n.fraction.None? && n.exponent.None?)
  {
    hide IntegerEnd, FractionEnd, ExponentEnd, At, FractionText, ExponentText;
    var minus := Peek(s, i) == 45;
    var sign: Text := if minus then [45] else [];
    WholeWritten(s, first, end);
    var f := FractionWritten(s, end);
    var e := ExponentWritten(s, mid);
    n := Numeral(minus, s[first..end], f, e);
    SignAt(s, i);
    AtConcat(s, i, sign, n.whole);
    AtConcat(s, i, sign + n.whole, FractionText(f));
    AtConcat(s, i, sign + n.whole + FractionText(f), ExponentText(e));
    NoParts(n);
  }

  /** Every number that is read, or is too big, was written as a numeral. */
  lemma NumeralWritten(s: Text, i: nat, big: TooBig) returns (n: Numeral)
    requires i <= |s| && (ParseNumber(s, i, big).Ok? || ParseNumber(s, i, big).code == NumberTooBig)
    ensures WellFormed(n) && At(s, i, NumeralText(n)) && ParseNumber(s, i, big) == Reading(n, i, big)
  {
    hide ParseNumber, Scanned, At, WellFormed, Reading, NumeralText;
    var first, end, mid, next := NumberScans(s, i, big);
    n := NumeralScanned(s, i, first, end, mid, next);
    NumberIs(s, i, n, first, end, mid, big);
  }

  lemma NothingAt(s: Text, i: nat)
    requires i <= |s|
    ensures At(s, i, [])
  {
  }

  lemma SignAt(s: Text, i: nat)
    requires i <= |s|
    ensures At(s, i, if Peek(s, i) == 45 then [45] else [])
  {
    if Peek(s, i) == 45 { AtByte(s, i, 45); }
  }

  lemma TextIs(s: Text, i: nat, t: Text)
    requires At(s, i, t)
    ensures i + |t| <= |s| && s[i..i + |t|] == t
  {
  }

  // ---------------------------------------------------------------------------------------------
  // What is no numeral
  // ---------------------------------------------------------------------------------------------

  /**
    An error other than of size is at the first character that cannot be part of a numeral: where the integer part, the
    fraction or the exponent has no digit. What is in front of it was written as far as it goes.
   */
  lemma NumeralRefused(s: Text, i: nat, big: TooBig) returns (whole: Text, f: Option<Text>)
    requires i <= |s| && ParseNumber(s, i, big).Err? && ParseNumber(s, i, big).code != NumberTooBig
    ensures var r, sign := ParseNumber(s, i, big), if Peek(s, i) == 45 then [45] else [];
            && r.offset <= |s| && !IsDigit(Peek(s, r.offset))
            && (r.code == ValueInvalid || r.code == NumberMissFraction || r.code == NumberMissExponent)
            && (r.code == ValueInvalid ==> At(s, i, sign) && r.offset == i + |sign|)
            && (r.code != ValueInvalid ==> AreDigits(whole) && (f.Some? ==> AreDigits(f.value)))
            && (r.code == NumberMissFraction ==> At(s, i, sign + whole + [46]) && r.offset == i + |sign + whole| + 1)
            && (r.code == NumberMissExponent ==>
                  exists mark, plus :: At(s, i, sign + whole + FractionText(f) + ([mark] + plus)) && (mark == 101 || mark == 69)
                    && (plus == [] || plus == [43] || plus == [45]) && r.offset == i + |sign + whole + FractionText(f)| + 1 + |plus|)
  {
    hide DecimalValue, IntegerEnd, FractionEnd, ExponentEnd, IntegerEvent, At, FractionText;
    var sign: Text := if Peek(s, i) == 45 then [45] else [];
    var first := i + |sign|;
    whole, f := [], None;
    SignAt(s, i);
    if IntegerEnd(s, first).None? {
      NoWhole(s, first);
    } else {
      var end := IntegerEnd(s, first).value;
      WholeWritten(s, first, end);
      whole := s[first..end];
      AtConcat(s, i, sign, whole);
      if FractionEnd(s, end).ScanErr? {
        NoFraction(s, end);
        AtConcat(s, i, sign + whole, [46]);
      } else {
        f := FractionWritten(s, end);
        AtConcat(s, i, sign + whole, FractionText(f));
        ExponentMissing(s, i, sign + whole + FractionText(f), FractionEnd(s, end).next);
      }
    }
  }

  lemma ExponentMissing(s: Text, i: nat, before: Text, mid: nat)
    requires At(s, i, before) && mid == i + |before| <= |s| && ExponentEnd(s, mid).ScanErr?
    ensures ExponentEnd(s, mid).code == NumberMissExponent
    ensures var offset := ExponentEnd(s, mid).offset;
            && offset <= |s| && !IsDigit(Peek(s, offset))
            && exists mark, plus :: At(s, i, before + ([mark] + plus)) && (mark == 101 || mark == 69)
                 && (plus == [] || plus == [43] || plus == [45]) && offset == i + |before| + 1 + |plus|
  {
    hide At, ExponentEnd;
    var mark, plus := NoExponent(s, mid);
    AtConcat(s, i, before, [mark] + plus);
  }

  lemma NoWhole(s: Text, i: nat)
    requires i <= |s| && IntegerEnd(s, i).None?
    ensures !IsDigit(Peek(s, i))
  {
  }

  lemma NoFraction(s: Text, i: nat)
    requires i <= |s| && FractionEnd(s, i).ScanErr?
    ensures At(s, i, [46]) && FractionEnd(s, i) == ScanErr(NumberMissFraction, i + 1) && i < |s| && !IsDigit(Peek(s, i + 1))
  {
    AtByte(s, i, 46);
  }

  lemma NoExponent(s: Text, i: nat) returns (mark: byte, plus: Text)
    requires i <= |s| && ExponentEnd(s, i).ScanErr?
    ensures (mark == 101 || mark == 69) && (plus == [] || plus == [43] || plus == [45]) && At(s, i, [mark] + plus)
    ensures ExponentEnd(s, i) == ScanErr(NumberMissExponent, i + 1 + |plus|) && i + 1 + |plus| <= |s| && !IsDigit(Peek(s, i + 1 + |plus|))
  {
    mark := s[i];
    var d := Peek(s, i + 1);
    plus := if d == 43 || d == 45 then [d] else [];
    AtConcat(s, i, [mark], plus);
    AtByte(s, i, mark);
    if plus != [] { AtByte(s, i + 1, d); }
  }
}
