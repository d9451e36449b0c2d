/** What is wrong with a text that reader.h refuses: for every error, what stands at its offset. */
module JsonFaults {
  import opened Wrappers
  import opened Bytes
  import opened JsonSyntax
  import JsonSpelling
  import JsonText
  import JsonGrammar

  /** The characters with which a value begins. */
  predicate StartsValue(c: byte) {
    c == 123 || c == 91 || c == 34 || c == 110 || c == 116 || c == 102 || c == 45 || 48 <= c <= 57
  }

  /** One of the three names is left at the offset. */
  ghost predicate BrokenName(s: Text, j: nat, name: Text) {
    exists k :: 0 < k < |name| && k <= j <= |s| && At(s, j - k, name[..k]) && Peek(s, j) != name[k]
  }

  predicate NoDigit(c: byte) {
    c < 48 || c > 57
  }

  /** What is wrong at the offset of an error. */
  ghost predicate Flaw(s: Text, code: ErrorCode, j: nat, big: TooBig) {
    match code
    case ObjectMissName => Peek(s, j) != 34
    case ObjectMissColon => Peek(s, j) != 58
    case ObjectMissCommaOrCurlyBracket => Peek(s, j) != 44 && Peek(s, j) != 125
    case ArrayMissCommaOrSquareBracket => Peek(s, j) != 44 && Peek(s, j) != 93
    case ValueInvalid =>
      || !StartsValue(Peek(s, j))
      || (0 < j <= |s| && s[j - 1] == 45 && NoDigit(Peek(s, j)))
      || BrokenName(s, j, [110, 117, 108, 108]) || BrokenName(s, j, [116, 114, 117, 101]) || BrokenName(s, j, [102, 97, 108, 115, 101])
    case NumberMissFraction => 0 < j <= |s| && s[j - 1] == 46 && NoDigit(Peek(s, j))
    case NumberMissExponent =>
      && 0 < j <= |s| && NoDigit(Peek(s, j))
      && (IsE(s[j - 1]) || (j >= 2 && (s[j - 1] == 43 || s[j - 1] == 45) && IsE(s[j - 2])))
    case NumberTooBig => exists end :: j <= end <= |s| && big(s[j..end])
    case LengthWraps => true
    case _ => JsonSpelling.Fault(s, j, code)
  }

  /** The same for a whole text: there is no value in it, or something behind the value. */
  ghost predicate TextFlaw(s: Text, code: ErrorCode, j: nat, big: TooBig) {
    match code
    case DocumentEmpty => j <= |s| && Peek(s, j) == 0 && JsonText.IsGap(s[..j])
    case DocumentRootNotSingular => j < |s| && s[j] != 0 && !JsonText.IsGap([s[j]])
    case _ => Flaw(s, code, j, big)
  }

  predicate IsE(c: byte) {
    c == 101 || c == 69
  }

  lemma StringFlaw(s: Text, i: nat, big: TooBig)
    requires i < |s| && s[i] == 34 && ParseString(s, i).StringErr?
    ensures Flaw(s, ParseString(s, i).code, ParseString(s, i).offset, big)
  {
    hide StringBody;
    if ParseString(s, i).code != LengthWraps {
      var _ := JsonSpelling.StringRefused(s, i);
    }
  }

  lemma OneMore(s: Text, i: nat, name: Text, k: nat)
    requires k < |name| && name[k] != 0 && At(s, i, name[..k]) && Peek(s, i + k) == name[k]
    ensures i + k < |s| && At(s, i, name[..k + 1])
  {
    AtByte(s, i + k, name[k]);
    AtConcat(s, i, name[..k], [name[k]]);
    assert name[..k] + [name[k]] == name[..k + 1];
  }

  lemma BrokenHere(s: Text, i: nat, name: Text, k: nat)
    requires 0 < k < |name| && i + k <= |s| && At(s, i, name[..k]) && Peek(s, i + k) != name[k]
    ensures BrokenName(s, i + k, name)
  {
    assert i + k - k == i;
  }

  lemma {:induction false} NameFlaw(s: Text, i: nat, name: Text, k: nat)
    requires 0 < k <= |name| && 0 !in name && i + k <= |s| && At(s, i, name[..k]) && !MatchName(s, i + k, name[k..]).0
    ensures BrokenName(s, MatchName(s, i + k, name[k..]).1, name)
    decreases |name| - k
  {
    hide At, BrokenName;
    var j := i + k;
    if k < |name| {
      assert name[k..][0] == name[k] && name[k..][1..] == name[k + 1..];
      if Peek(s, j) == name[k] {
        assert name[k] in name;
        OneMore(s, i, name, k);
        NameFlaw(s, i, name, k + 1);
      } else {
        BrokenHere(s, i, name, k);
      }
    }
  }

  lemma WordFlaw(s: Text, i: nat, name: Text, tail: Text, event: Event)
    requires i < |s| && |name| > 1 && name[0] == s[i] && 0 !in name && tail == name[1..] && ParseName(s, i, tail, event).Err?
    ensures ParseName(s, i, tail, event).code == ValueInvalid && BrokenName(s, ParseName(s, i, tail, event).offset, name)
  {
    AtByte(s, i, s[i]);
    assert name[..1] == [s[i]];
    NameFlaw(s, i, name, 1);
  }

  lemma NumberFlaw(s: Text, i: nat, big: TooBig)
    requires i <= |s| && ParseNumber(s, i, big).Err? && (IsDigit(Peek(s, i)) || Peek(s, i) == 45 || !StartsValue(Peek(s, i)))
    ensures Flaw(s, ParseNumber(s, i, big).code, ParseNumber(s, i, big).offset, big)
  {
    hide DigitsEnd, DecimalValue, IntegerEvent, BrokenName, JsonSpelling.Fault;
    var first := if Peek(s, i) == 45 then i + 1 else i;
    var end := IntegerEnd(s, first);
    if end.Some? && FractionEnd(s, end.value).ScanOk? {
      var frac := FractionEnd(s, end.value).next;
      if ExponentEnd(s, frac).ScanOk? && big(s[i..ExponentEnd(s, frac).next]) {
        assert i <= ExponentEnd(s, frac).next <= |s|;
      }
    }
  }

  lemma ScalarFlaw(s: Text, i: nat, big: TooBig)
    requires i <= |s| && Peek(s, i) != 123 && Peek(s, i) != 91 && JsonGrammar.Scalar(s, i, big).Err?
    ensures Flaw(s, JsonGrammar.Scalar(s, i, big).code, JsonGrammar.Scalar(s, i, big).offset, big)
  {
    hide ParseNumber, ParseName, ParseString, BrokenName;
    var c := Peek(s, i);
    if c == 110 {
      WordFlaw(s, i, [110, 117, 108, 108], JsonGrammar.NULL_TAIL, Null);
    } else if c == 116 {
      WordFlaw(s, i, [116, 114, 117, 101], JsonGrammar.TRUE_TAIL, Bool(true));
    } else if c == 102 {
      WordFlaw(s, i, [102, 97, 108, 115, 101], JsonGrammar.FALSE_TAIL, Bool(false));
    } else if c == 34 {
      StringFlaw(s, i, big);
    } else {
      NumberFlaw(s, i, big);
    }
  }

  lemma {:induction false} ValueFlaw(s: Text, i: nat, big: TooBig)
    requires i <= |s| && JsonGrammar.Value(s, i, big).Err?
    ensures Flaw(s, JsonGrammar.Value(s, i, big).code, JsonGrammar.Value(s, i, big).offset, big)
    decreases |s| - i, 2
  {
    hide Flaw, JsonGrammar.Scalar, SkipSpace;
    var c := Peek(s, i);
    if c == 123 {
      var j := SkipSpace(s, i + 1);
      if Peek(s, j) != 125 { MembersFlaw(s, j, 0, big); }
    } else if c == 91 {
      var j := SkipSpace(s, i + 1);
      if Peek(s, j) != 93 { ElementsFlaw(s, j, 0, big); }
    } else {
      ScalarFlaw(s, i, big);
    }
  }

  lemma {:induction false} MembersFlaw(s: Text, i: nat, count: nat, big: TooBig)
    requires i <= |s| && JsonGrammar.Members(s, i, count, big).Err?
    ensures Flaw(s, JsonGrammar.Members(s, i, count, big).code, JsonGrammar.Members(s, i, count, big).offset, big)
    decreases |s| - i, 1
  {
    hide Flaw, JsonGrammar.Member, SkipSpace;
    var m := JsonGrammar.Member(s, i, big);
    if m.Err? {
      MemberFlaw(s, i, big);
    } else if Peek(s, m.next) == 44 {
      MembersFlaw(s, SkipSpace(s, m.next + 1), count + 1, big);
    } else {
      NoCommaFlaw(s, m.next, big);
    }
  }

  lemma NoCommaFlaw(s: Text, j: nat, big: TooBig)
    ensures Peek(s, j) != 44 && Peek(s, j) != 125 ==> Flaw(s, ObjectMissCommaOrCurlyBracket, j, big)
    ensures Peek(s, j) != 44 && Peek(s, j) != 93 ==> Flaw(s, ArrayMissCommaOrSquareBracket, j, big)
    ensures Peek(s, j) != 34 ==> Flaw(s, ObjectMissName, j, big)
    ensures Peek(s, j) != 58 ==> Flaw(s, ObjectMissColon, j, big)
  {
  }

  lemma {:induction false} MemberFlaw(s: Text, i: nat, big: TooBig)
    requires i <= |s| && JsonGrammar.Member(s, i, big).Err?
    ensures Flaw(s, JsonGrammar.Member(s, i, big).code, JsonGrammar.Member(s, i, big).offset, big)
    decreases |s| - i, 0
  {
    hide Flaw, ParseString, SkipSpace, JsonGrammar.Value;
    NoCommaFlaw(s, i, big);
    if Peek(s, i) == 34 {
      if ParseString(s, i).StringErr? {
        StringFlaw(s, i, big);
      } else {
        var j := SkipSpace(s, ParseString(s, i).next);
        NoCommaFlaw(s, j, big);
        if Peek(s, j) == 58 { ValueFlaw(s, SkipSpace(s, j + 1), big); }
      }
    }
  }

  lemma {:induction false} ElementsFlaw(s: Text, i: nat, count: nat, big: TooBig)
    requires i <= |s| && JsonGrammar.Elements(s, i, count, big).Err?
    ensures Flaw(s, JsonGrammar.Elements(s, i, count, big).code, JsonGrammar.Elements(s, i, count, big).offset, big)
    decreases |s| - i, 4
  {
    hide Flaw, JsonGrammar.Value, SkipSpace;
    var v := JsonGrammar.Value(s, i, big);
    if v.Err? {
      ValueFlaw(s, i, big);
    } else {
      var j := SkipSpace(s, v.next);
      if Peek(s, j) == 44 {
        ElementsFlaw(s, SkipSpace(s, j + 1), count + 1, big);
      } else {
        NoCommaFlaw(s, j, big);
      }
    }
  }

  /** A text that is refused has at the offset of the error what the error says. */
  lemma DocumentFlaw(s: Text, big: TooBig)
    requires JsonGrammar.Document(s, big).Err?
    ensures TextFlaw(s, JsonGrammar.Document(s, big).code, JsonGrammar.Document(s, big).offset, big)
  {
    hide Flaw, JsonGrammar.Value, SkipSpace;
    var i := SkipSpace(s, 0);
    if Peek(s, i) == 0 {
      var gap := JsonText.GapFound(s, 0);
      assert s[..|gap|] == gap;
    } else if JsonGrammar.Value(s, i, big).Err? {
      ValueFlaw(s, i, big);
      InnerFlaw(s, JsonGrammar.Value(s, i, big).code, JsonGrammar.Value(s, i, big).offset, big);
    } else {
      assert !JsonText.IsGap([Peek(s, SkipSpace(s, JsonGrammar.Value(s, i, big).next))]) by {
        assert [Peek(s, SkipSpace(s, JsonGrammar.Value(s, i, big).next))][0] == Peek(s, SkipSpace(s, JsonGrammar.Value(s, i, big).next));
      }
    }
  }

  lemma InnerFlaw(s: Text, code: ErrorCode, j: nat, big: TooBig)
    requires Flaw(s, code, j, big)
    ensures code != DocumentEmpty && code != DocumentRootNotSingular
  {
  }

  /** When something follows a value, that value and the white space around it are what is in front of the offset. */
  lemma RootBefore(s: Text, big: TooBig) returns (before: Text, t: JsonText.Tree, after: Text)
    requires JsonGrammar.Document(s, big).Err? && JsonGrammar.Document(s, big).code == DocumentRootNotSingular
    ensures JsonText.IsGap(before) && JsonText.Proper(t, big) && JsonText.IsGap(after)
    ensures var r := JsonGrammar.Document(s, big);
            r.offset <= |s| && s[..r.offset] == before + (JsonText.TreeText(t) + after) && r.events == JsonText.TreeEvents(t)
  {
    hide JsonGrammar.Value, JsonText.TreeText, JsonText.TreeEvents, JsonText.Proper, At, Flaw;
    var i := SkipSpace(s, 0);
    if JsonGrammar.Value(s, i, big).Err? {
      ValueFlaw(s, i, big);
      InnerFlaw(s, JsonGrammar.Value(s, i, big).code, JsonGrammar.Value(s, i, big).offset, big);
    }
    before := JsonText.GapFound(s, 0);
    t := JsonText.TreeFound(s, |before|, big);
    after := JsonText.GapFound(s, |before| + |JsonText.TreeText(t)|);
    AtConcat(s, |before|, JsonText.TreeText(t), after);
    AtConcat(s, 0, before, JsonText.TreeText(t) + after);
    JsonText.PrefixAt(s, before + (JsonText.TreeText(t) + after));
  }
}
