/** JSON Pointer (RFC 6901) as pointer.h reads and writes it: the string form and the URI fragment form. */
module JsonPointer {
  import opened Wrappers
  import opened Bytes
  import opened JsonSyntax
  import opened JsonPrint
  import Utf8

  datatype PointerError = TokenMustBeginWithSolidus | InvalidEscape | InvalidPercentEncoding | CharacterMustPercentEncode

  datatype NameResult = NameOk(name: Text, next: nat) | NameErr(code: PointerError, offset: nat)

  datatype ParseResult = Tokens(names: seq<Text>) | Invalid(code: PointerError, offset: nat)

  const SLASH: byte := '/' as int
  const TILDE: byte := '~' as int
  const PERCENT: byte := '%' as int
  const HASH: byte := '#' as int

  /** A character that stands for itself in a URI fragment. */
  predicate NeedPercentEncode(c: byte) {
    !('0' as int <= c <= '9' as int || 'A' as int <= c <= 'Z' as int || 'a' as int <= c <= 'z' as int
      || c == '-' as int || c == '.' as int || c == '_' as int || c == TILDE)
  }

  // ---------------------------------------------------------------------------------------------
  // Reading
  // ---------------------------------------------------------------------------------------------

  /** PercentDecodeStream::Take: the byte of a triplet %XY. */
  function PercentByte(s: Text, i: nat): (r: Option<byte>)
    ensures r.Some? ==> i + 3 <= |s| && s[i] == PERCENT
  {
    if Peek(s, i) != PERCENT || i + 3 > |s| then None
    else match (HexDigit(s[i + 1]), HexDigit(s[i + 2]))
      case (Some(a), Some(b)) => Some(16 * a + b)
      case _ => None
  }

  /** The bytes of n triplets. */
  function PercentBytes(s: Text, i: nat, n: nat): (r: Option<Text>)
    ensures r.Some? ==> |r.value| == n && (n == 0 || i + 3 * n <= |s|)
    decreases n
  {
    if n == 0 then Some([])
    else match PercentByte(s, i)
      case None => None
      case Some(c) =>
        match PercentBytes(s, i + 3, n - 1)
        case None => None
        case Some(rest) => Some([c] + rest)
  }

  /** The character that begins with the triplet at `i`: as many triplets as its first byte asks for, if they make a valid character. */
  function PercentCharacter(s: Text, i: nat): (r: Option<Text>)
    ensures r.Some? ==> 1 <= |r.value| <= 4 && i + 3 * |r.value| <= |s|
  {
    match PercentByte(s, i)
    case None => None
    case Some(c) =>
      var bytes := PercentBytes(s, i, Utf8.Width(c));
      if bytes.Some? && Utf8.Validate(bytes.value, 0) then bytes else None
  }

  /** The rest of a name; `acc` is what came before. */
  function NameBody(s: Text, i: nat, uri: bool, acc: Text): (r: NameResult)
    requires i <= |s|
    ensures r.NameOk? ==> i <= r.next <= |s| && (r.next == |s| || s[r.next] == SLASH)
    decreases |s| - i, 1
  {
    if i == |s| || s[i] == SLASH then NameOk(acc, i)
    else if uri && s[i] == PERCENT then
      match PercentCharacter(s, i)
      case None => NameErr(InvalidPercentEncoding, i)
      case Some(bytes) =>
        if |bytes| == 1 then Character(s, i + 3, uri, acc, bytes[0]) else NameBody(s, i + 3 * |bytes|, uri, acc + bytes)
    else if uri && NeedPercentEncode(s[i]) then NameErr(CharacterMustPercentEncode, i)
    else Character(s, i + 1, uri, acc, s[i])
  }

  /** A character that has been taken, the position being behind it: ~0 stands for ~ and ~1 for /. */
  function Character(s: Text, i: nat, uri: bool, acc: Text, c: byte): (r: NameResult)
    requires i <= |s|
    ensures r.NameOk? ==> i <= r.next <= |s| && (r.next == |s| || s[r.next] == SLASH)
    decreases |s| - i, 2
  {
    if c != TILDE then NameBody(s, i, uri, acc + [c])
    else if i == |s| then NameErr(InvalidEscape, i)
    else if s[i] == '0' as int then NameBody(s, i + 1, uri, acc + [TILDE])
    else if s[i] == '1' as int then NameBody(s, i + 1, uri, acc + [SLASH])
    else NameErr(InvalidEscape, i)
  }

  /** The tokens from `i` on. */
  function Names(s: Text, i: nat, uri: bool): (r: ParseResult)
    requires i <= |s| && (i == |s| || s[i] == SLASH)
    decreases |s| - i
  {
    if i == |s| then Tokens([])
    else match NameBody(s, i + 1, uri, [])
      case NameErr(code, offset) => Invalid(code, offset)
      case NameOk(name, next) =>
        match Names(s, next, uri)
        case Invalid(code, offset) => Invalid(code, offset)
        case Tokens(names) => Tokens([name] + names)
  }

  /** GenericPointer::Parse. */
  function ParsePointer(s: Text): (r: ParseResult) {
    var uri := Peek(s, 0) == HASH;
    var i := if uri then 1 else 0;
    if i != |s| && Peek(s, i) != SLASH then Invalid(TokenMustBeginWithSolidus, i) else Names(s, i, uri)
  }

  // ---------------------------------------------------------------------------------------------
  // Writing
  // ---------------------------------------------------------------------------------------------

  /** A character of the string form. */
  function EscapedCharacter(c: byte): (r: Text)
    ensures |r| > 0
  {
    if c == TILDE then [TILDE, '0' as int] else if c == SLASH then [TILDE, '1' as int] else [c]
  }

  function EscapedName(name: Text, k: nat): (r: Text)
    requires k <= |name|
    decreases |name| - k
  {
    if k == |name| then [] else EscapedCharacter(name[k]) + EscapedName(name, k + 1)
  }

  /** Characters that stand for themselves or are escaped with a tilde. */
  predicate Plain(c: byte) {
    c == TILDE || c == SLASH || !NeedPercentEncode(c)
  }

  /** PercentEncodeStream: the triplets of bytes. */
  function Percent(bytes: Text): (r: Text)
    ensures |r| == 3 * |bytes|
  {
    if bytes == [] then [] else [PERCENT, HexChar(bytes[0] / 16), HexChar(bytes[0] % 16)] + Percent(bytes[1..])
  }

  /** The fragment form, which there is only for names in valid UTF-8. */
  function FragmentName(name: Text, k: nat): (r: Option<Text>)
    requires k <= |name|
    decreases |name| - k
  {
    if k == |name| then Some([])
    else if Plain(name[k]) then
      Before(EscapedCharacter(name[k]), FragmentName(name, k + 1))
    else if !Utf8.Validate(name, k) then None
    else
      Utf8.ValidFits(name, k);
      var n := Utf8.Width(name[k]);
      Before(Percent(name[k..k + n]), FragmentName(name, k + n))
  }

  function Before(a: Text, b: Option<Text>): (r: Option<Text>) {
    if b.None? then None else Some(a + b.value)
  }

  /** Stringify<false>. */
  function Stringify(names: seq<Text>): (r: Text)
    decreases |names|
  {
    if names == [] then [] else [SLASH] + EscapedName(names[0], 0) + Stringify(names[1..])
  }

  /** Stringify<true> after the hash sign. */
  function Fragments(names: seq<Text>): (r: Option<Text>)
    decreases |names|
  {
    if names == [] then Some([])
    else
      var first, rest := FragmentName(names[0], 0), Fragments(names[1..]);
      if first.None? || rest.None? then None else Some([SLASH] + first.value + rest.value)
  }

  function StringifyFragment(names: seq<Text>): (r: Option<Text>) {
    Before([HASH], Fragments(names))
  }

  // ---------------------------------------------------------------------------------------------
  // The string form is read back
  // ---------------------------------------------------------------------------------------------

  /** A name ends here. */
  predicate NameEnds(s: Text, i: nat) {
    i == |s| || (i < |s| && s[i] == SLASH)
  }

  lemma CharacterReads(s: Text, i: nat, c: byte, uri: bool, acc: Text)
    requires At(s, i, EscapedCharacter(c)) && (uri ==> c == TILDE || c == SLASH || !NeedPercentEncode(c))
    ensures NameBody(s, i, uri, acc) == NameBody(s, i + |EscapedCharacter(c)|, uri, acc + [c])
  {
    var e := EscapedCharacter(c);
    AtIndex(s, i, e, 0);
    if c == TILDE || c == SLASH { AtIndex(s, i, e, 1); }
  }

  lemma {:induction false} EscapedNameReads(s: Text, i: nat, name: Text, k: nat)
    requires k <= |name| && At(s, i, EscapedName(name, k)) && NameEnds(s, i + |EscapedName(name, k)|)
    ensures NameBody(s, i, false, name[..k]) == NameOk(name, i + |EscapedName(name, k)|)
    decreases |name| - k
  {
    hide NameBody, EscapedCharacter;
    if k == |name| {
      assert name[..k] == name;
      NameDone(s, i, false, name);
    } else {
      var first, rest := EscapedCharacter(name[k]), EscapedName(name, k + 1);
      AtConcat(s, i, first, rest);
      CharacterReads(s, i, name[k], false, name[..k]);
      assert name[..k] + [name[k]] == name[..k + 1];
      EscapedNameReads(s, i + |first|, name, k + 1);
    }
  }

  lemma NameDone(s: Text, i: nat, uri: bool, acc: Text)
    requires NameEnds(s, i)
    ensures NameBody(s, i, uri, acc) == NameOk(acc, i)
  {
  }

  // ---------------------------------------------------------------------------------------------
  // The fragment form is read back
  // ---------------------------------------------------------------------------------------------

  lemma TripletReads(s: Text, i: nat, c: byte)
    requires At(s, i, [PERCENT, HexChar(c / 16), HexChar(c % 16)])
    ensures PercentByte(s, i) == Some(c)
  {
    var e := [PERCENT, HexChar(c / 16), HexChar(c % 16)];
    AtIndex(s, i, e, 0);
    AtIndex(s, i, e, 1);
    AtIndex(s, i, e, 2);
    HexCharReads(c / 16);
    HexCharReads(c % 16);
    hide HexChar, HexDigit;
  }

  lemma {:induction false} PercentReads(s: Text, i: nat, bytes: Text)
    requires At(s, i, Percent(bytes))
    ensures PercentBytes(s, i, |bytes|) == Some(bytes)
    decreases |bytes|
  {
    if bytes != [] {
      AtConcat(s, i, [PERCENT, HexChar(bytes[0] / 16), HexChar(bytes[0] % 16)], Percent(bytes[1..]));
      TripletReads(s, i, bytes[0]);
      hide HexChar, PercentByte;
      PercentReads(s, i + 3, bytes[1..]);
      assert bytes == [bytes[0]] + bytes[1..];
    }
  }

  /** A character is valid by itself. */
  lemma ValidAlone(name: Text, k: nat)
    requires Utf8.Validate(name, k)
    ensures k + Utf8.Width(name[k]) <= |name| && Utf8.Validate(name[k..k + Utf8.Width(name[k])], 0)
  {
    hide Utf8.Validate, Utf8.GetRange, Utf8.Tails, Utf8.Meets;
    Utf8.ValidFits(name, k);
    Utf8.ValidateCases(name, k);
    Utf8.ValidateCases(name[k..k + Utf8.Width(name[k])], 0);
  }

  lemma PercentCharacterReads(s: Text, i: nat, bytes: Text)
    requires bytes != [] && |bytes| == Utf8.Width(bytes[0]) && Utf8.Validate(bytes, 0) && At(s, i, Percent(bytes))
    ensures PercentCharacter(s, i) == Some(bytes) && i < |s| && s[i] == PERCENT
  {
    hide Utf8.Validate, Utf8.Width;
    PercentReads(s, i, bytes);
    AtConcat(s, i, [PERCENT, HexChar(bytes[0] / 16), HexChar(bytes[0] % 16)], Percent(bytes[1..]));
    TripletReads(s, i, bytes[0]);
    hide PercentBytes, PercentByte, HexChar;
  }

  /** A percent-encoded character of a name. */
  lemma EncodedReads(s: Text, i: nat, name: Text, k: nat, acc: Text)
    requires k < |name| && name[k] != TILDE && Utf8.Validate(name, k) && k + Utf8.Width(name[k]) <= |name|
    requires At(s, i, Percent(name[k..k + Utf8.Width(name[k])]))
    ensures var bytes := name[k..k + Utf8.Width(name[k])];
            i + 3 * |bytes| <= |s| && NameBody(s, i, true, acc) == NameBody(s, i + 3 * |bytes|, true, acc + bytes)
  {
    var bytes := name[k..k + Utf8.Width(name[k])];
    ValidAlone(name, k);
    PercentCharacterReads(s, i, bytes);
    hide PercentCharacter, Utf8.Validate, Utf8.Width;
    if |bytes| == 1 { assert bytes == [name[k]]; }
  }

  /** How the fragment form of a name goes on. */
  lemma FragmentStep(name: Text, k: nat)
    requires k < |name| && FragmentName(name, k).Some?
    ensures Plain(name[k]) ==> FragmentName(name, k + 1).Some? &&
                               FragmentName(name, k).value == EscapedCharacter(name[k]) + FragmentName(name, k + 1).value
    ensures !Plain(name[k]) ==> Utf8.Validate(name, k) && k + Utf8.Width(name[k]) <= |name| && FragmentName(name, k + Utf8.Width(name[k])).Some?
    ensures !Plain(name[k]) ==> FragmentName(name, k).value ==
                                Percent(name[k..k + Utf8.Width(name[k])]) + FragmentName(name, k + Utf8.Width(name[k])).value
  {
    hide EscapedCharacter, Utf8.Validate, Utf8.Width, Percent, NeedPercentEncode;
    if !Plain(name[k]) { Utf8.ValidFits(name, k); }
  }

  lemma NoFragment(name: Text)
    ensures FragmentName(name, |name|) == Some([])
  {
  }

  lemma {:induction false} FragmentNameReads(s: Text, i: nat, name: Text, k: nat)
    requires k <= |name| && FragmentName(name, k).Some?
    requires At(s, i, FragmentName(name, k).value) && NameEnds(s, i + |FragmentName(name, k).value|)
    ensures NameBody(s, i, true, name[..k]) == NameOk(name, i + |FragmentName(name, k).value|)
    decreases |name| - k
  {
    hide NameBody, EscapedCharacter, Utf8.Validate, Utf8.Width, Percent, NeedPercentEncode, FragmentName;
    if k == |name| {
      NoFragment(name);
      assert name[..k] == name;
      NameDone(s, i, true, name);
      return;
    }
    FragmentStep(name, k);
    if Plain(name[k]) {
      var first := EscapedCharacter(name[k]);
      AtConcat(s, i, first, FragmentName(name, k + 1).value);
      CharacterReads(s, i, name[k], true, name[..k]);
      assert name[..k] + [name[k]] == name[..k + 1];
      FragmentNameReads(s, i + |first|, name, k + 1);
    } else {
      var n := Utf8.Width(name[k]);
      var first := Percent(name[k..k + n]);
      AtConcat(s, i, first, FragmentName(name, k + n).value);
      EncodedReads(s, i, name, k, name[..k]);
      assert name[..k] + name[k..k + n] == name[..k + n];
      FragmentNameReads(s, i + |first|, name, k + n);
    }
  }

  // ---------------------------------------------------------------------------------------------
  // The round trips
  // ---------------------------------------------------------------------------------------------

  lemma StringifyStarts(names: seq<Text>)
    ensures names != [] ==> |Stringify(names)| > 0 && Stringify(names)[0] == SLASH
    ensures Fragments(names).Some? && names != [] ==> |Fragments(names).value| > 0 && Fragments(names).value[0] == SLASH
  {
  }

  /** A name that has been read, and the tokens behind it. */
  lemma OneName(s: Text, i: nat, uri: bool, names: seq<Text>, next: nat)
    requires names != [] && i < |s| && s[i] == SLASH && next <= |s| && NameEnds(s, next)
    requires NameBody(s, i + 1, uri, []) == NameOk(names[0], next) && Names(s, next, uri) == Tokens(names[1..])
    ensures Names(s, i, uri) == Tokens(names)
  {
    hide NameBody;
    assert names == [names[0]] + names[1..];
  }

  lemma {:induction false} NamesRead(s: Text, i: nat, names: seq<Text>)
    requires At(s, i, Stringify(names)) && i + |Stringify(names)| == |s|
    ensures NameEnds(s, i) && Names(s, i, false) == Tokens(names)
    decreases |names|
  {
    hide NameBody, EscapedName, Names;
    if names == [] {
      NoNames(s, false);
    } else {
      var name, rest := EscapedName(names[0], 0), Stringify(names[1..]);
      AtConcat(s, i, [SLASH] + name, rest);
      AtConcat(s, i, [SLASH], name);
      AtByte(s, i, SLASH);
      NamesRead(s, i + 1 + |name|, names[1..]);
      EscapedNameReads(s, i + 1, names[0], 0);
      assert names[0][..0] == [];
      OneName(s, i, false, names, i + 1 + |name|);
    }
    hide Stringify;
  }

  lemma NoNames(s: Text, uri: bool)
    ensures Names(s, |s|, uri) == Tokens([])
  {
  }

  lemma {:induction false} FragmentsRead(s: Text, i: nat, names: seq<Text>)
    requires Fragments(names).Some? && At(s, i, Fragments(names).value) && i + |Fragments(names).value| == |s|
    ensures NameEnds(s, i) && Names(s, i, true) == Tokens(names)
    decreases |names|
  {
    hide NameBody, FragmentName, Names;
    if names == [] {
      NoNames(s, true);
    } else {
      var name, rest := FragmentName(names[0], 0).value, Fragments(names[1..]).value;
      AtConcat(s, i, [SLASH] + name, rest);
      AtConcat(s, i, [SLASH], name);
      AtByte(s, i, SLASH);
      FragmentsRead(s, i + 1 + |name|, names[1..]);
      FragmentNameReads(s, i + 1, names[0], 0);
      assert names[0][..0] == [];
      OneName(s, i, true, names, i + 1 + |name|);
    }
    hide Fragments;
  }

  /** Reading the string form of any tokens gives those tokens. */
  lemma StringRoundTrip(names: seq<Text>)
    ensures ParsePointer(Stringify(names)) == Tokens(names)
  {
    var s := Stringify(names);
    StringifyStarts(names);
    assert s[0..|s|] == s;
    NamesRead(s, 0, names);
    hide Names;
  }

  /** Reading the fragment form of any tokens that have one gives those tokens. */
  lemma FragmentRoundTrip(names: seq<Text>)
    requires StringifyFragment(names).Some?
    ensures ParsePointer(StringifyFragment(names).value) == Tokens(names)
  {
    var rest := Fragments(names).value;
    var s := [HASH] + rest;
    assert s[0..|s|] == s;
    AtConcat(s, 0, [HASH], rest);
    FragmentsRead(s, 1, names);
    hide Names, Fragments;
  }

  /** The characters from k on are valid UTF-8. */
  predicate IsUtf8(name: Text, k: nat)
    requires k <= |name|
    decreases |name| - k
  {
    k == |name| || (Utf8.Validate(name, k) && k + Utf8.Width(name[k]) <= |name| && IsUtf8(name, k + Utf8.Width(name[k])))
  }

  /** A name has a fragment form exactly when it is valid UTF-8. */
  lemma {:induction false} FragmentExists(name: Text, k: nat)
    requires k <= |name|
    ensures FragmentName(name, k).Some? <==> IsUtf8(name, k)
    decreases |name| - k
  {
    hide Utf8.Validate, Utf8.Width, EscapedCharacter, Percent;
    if k < |name| {
      if Plain(name[k]) {
        PlainIsValid(name, k);
        FragmentExists(name, k + 1);
      } else if Utf8.Validate(name, k) {
        Utf8.ValidFits(name, k);
        FragmentExists(name, k + Utf8.Width(name[k]));
      }
    }
  }

  lemma PlainIsValid(name: Text, k: nat)
    requires k < |name| && name[k] < 0x80
    ensures Utf8.Validate(name, k) && Utf8.Width(name[k]) == 1
  {
    Utf8.ValidateCases(name, k);
    hide Utf8.Validate;
  }

  // ---------------------------------------------------------------------------------------------
  // Parse as it fills its buffer
  // ---------------------------------------------------------------------------------------------

  /** Where a name begins in the buffer, and its length in 32 bits. */
  datatype Token = Token(start: nat, length: nat)

  function TokenOf(start: nat, end: nat): (t: Token)
    requires start <= end
    ensures t.length == end - start <==> end - start < TWO32
  {
    Token(start, (end - start) % TWO32)
  }

  /** The buffer holds the name where the token says, with a NUL behind it. */
  ghost predicate Holds(buffer: Text, t: Token, name: Text) {
    && t.start + |name| < |buffer| && t.length == |name| % TWO32
    && buffer[t.start..t.start + |name|] == name && buffer[t.start + |name|] == 0
  }

  ghost predicate HoldsAll(buffer: Text, tokens: seq<Token>, names: seq<Text>) {
    |tokens| == |names| && forall k | 0 <= k < |tokens| :: Holds(buffer, tokens[k], names[k])
  }

  /** One more triplet. */
  lemma {:induction false} PercentSnoc(s: Text, i: nat, n: nat)
    ensures PercentBytes(s, i, n + 1) ==
            if PercentBytes(s, i, n).Some? && PercentByte(s, i + 3 * n).Some?
            then Some(PercentBytes(s, i, n).value + [PercentByte(s, i + 3 * n).value]) else None
    decreases n
  {
    hide PercentByte;
    if n == 0 {
      assert PercentBytes(s, i + 3, 0) == Some([]);
      if PercentByte(s, i).Some? { assert [PercentByte(s, i).value] + [] == [] + [PercentByte(s, i).value]; }
    } else {
      PercentSnoc(s, i + 3, n - 1);
      assert i + 3 + 3 * (n - 1) == i + 3 * n;
      if PercentBytes(s, i, n + 1).Some? {
        var c, rest, last := PercentByte(s, i).value, PercentBytes(s, i + 3, n - 1).value, PercentByte(s, i + 3 * n).value;
        assert [c] + (rest + [last]) == [c] + rest + [last];
      }
    }
  }

  /** The loop of UTF8::Validate over a PercentDecodeStream: a byte is put for each triplet, or zero where there is none. */
  method TakeCharacter(s: Text, i: nat, buffer: array<byte>, pos: nat) returns (ok: bool, n: nat)
    requires i < |s| && s[i] == PERCENT && pos + 2 <= i && buffer.Length == |s|
    modifies buffer
    ensures buffer[..pos] == old(buffer[..pos])
    ensures ok <==> PercentCharacter(s, i).Some?
    ensures ok ==> n == |PercentCharacter(s, i).value| && pos + n <= buffer.Length && buffer[pos..pos + n] == PercentCharacter(s, i).value
  {
    hide PercentByte, Utf8.Validate, Utf8.Width;
    var first := PercentByte(s, i);
    if first.None? {
      buffer[pos] := 0;
      return false, 1;
    }
    var width := Utf8.Width(first.value);
    var valid := true;
    n := 0;
    while n < width
      invariant n <= width && buffer[..pos] == old(buffer[..pos])
      invariant valid <==> PercentBytes(s, i, n).Some?
      invariant valid ==> buffer[pos..pos + n] == PercentBytes(s, i, n).value
    {
      PercentSnoc(s, i, n);
      var c := PercentByte(s, i + 3 * n);
      buffer[pos + n] := if c.Some? then c.value else 0;
      valid := valid && c.Some?;
      n := n + 1;
    }
    ok := valid && Utf8.Validate(buffer[pos..pos + n], 0);
  }

  /** One turn of the loop over the characters of a name. */
  method TakeNext(s: Text, i: nat, uri: bool, buffer: array<byte>, start: nat, pos: nat)
    returns (error: Option<PointerError>, next: nat, end: nat)
    requires i < |s| && s[i] != SLASH && buffer.Length == |s| && start <= pos && pos + (if uri then 2 else 1) <= i
    modifies buffer
    ensures buffer[..start] == old(buffer[..start]) && pos <= end && i <= next <= |s|
    ensures error.None? ==> i < next && end + (if uri then 2 else 1) <= next
    ensures error.None? ==> NameBody(s, i, uri, old(buffer[start..pos])) == NameBody(s, next, uri, buffer[start..end])
    ensures error.Some? ==> NameBody(s, i, uri, old(buffer[start..pos])) == NameErr(error.value, next)
  {
    hide PercentCharacter;
    ghost var done := buffer[start..pos];
    var c := s[i];
    next := i;
    if uri {
      if c == PERCENT {
        var ok, n := TakeCharacter(s, i, buffer, pos);
        if !ok {
          return Some(InvalidPercentEncoding), i, pos;
        }
        next := i + 3 * n - 1;
        if n == 1 {
          c := buffer[pos];
        } else {
          assert buffer[start..pos + n] == done + buffer[pos..pos + n];
          return None, next + 1, pos + n;
        }
      } else if NeedPercentEncode(c) {
        return Some(CharacterMustPercentEncode), i, pos;
      }
    }
    next := next + 1;
    if c == TILDE {
      if next < |s| {
        c := s[next];
        if c == '0' as int {
          c := TILDE;
        } else if c == '1' as int {
          c := SLASH;
        } else {
          return Some(InvalidEscape), next, pos;
        }
        next := next + 1;
      } else {
        return Some(InvalidEscape), next, pos;
      }
    }
    buffer[pos] := c;
    end := pos + 1;
    error := None;
    assert buffer[start..end] == done + [c];
  }

  /** The loop over the characters of a name, and the NUL behind it. */
  method TakeName(s: Text, i: nat, uri: bool, buffer: array<byte>, start: nat) returns (error: Option<PointerError>, next: nat, end: nat)
    requires i <= |s| && buffer.Length == |s| && start + (if uri then 2 else 1) <= i
    modifies buffer
    ensures buffer[..start] == old(buffer[..start]) && i <= next <= |s|
    ensures match NameBody(s, i, uri, [])
            case NameErr(code, offset) => error == Some(code) && next == offset
            case NameOk(name, after) =>
              && error.None? && next == after && start <= end && end + (if uri then 2 else 1) <= next
              && Holds(buffer[..], TokenOf(start, end), name) && |name| == end - start
  {
    hide NameBody;
    next, end := i, start;
    assert buffer[start..end] == [];
    while next < |s| && s[next] != SLASH
      invariant start <= end && i <= next <= |s| && end + (if uri then 2 else 1) <= next && buffer[..start] == old(buffer[..start])
      invariant NameBody(s, next, uri, buffer[start..end]) == NameBody(s, i, uri, [])
      decreases |s| - next
    {
      error, next, end := TakeNext(s, next, uri, buffer, start, end);
      if error.Some? {
        return;
      }
    }
    NameDone(s, next, uri, buffer[start..end]);
    ghost var name := buffer[start..end];
    error := None;
    buffer[end] := 0;
    assert buffer[..][start..end] == name;
  }

  /** How many slashes there are from `i` on. */
  function Slashes(s: Text, i: nat): (n: nat)
    requires i <= |s|
    decreases |s| - i
  {
    if i == |s| then 0 else (if s[i] == SLASH then 1 else 0) + Slashes(s, i + 1)
  }

  lemma {:induction false} NoSlashes(s: Text, i: nat, j: nat)
    requires i <= j <= |s| && forall k | i <= k < j :: s[k] != SLASH
    ensures Slashes(s, i) == Slashes(s, j)
    decreases j - i
  {
    if i < j { NoSlashes(s, i + 1, j); }
  }

  lemma {:induction false} TripletsHaveNoSlash(s: Text, i: nat, n: nat)
    requires PercentBytes(s, i, n).Some?
    ensures forall k | i <= k < i + 3 * n && k < |s| :: s[k] != SLASH
    decreases n
  {
    if n > 0 {
      assert HexDigit(SLASH).None?;
      TripletsHaveNoSlash(s, i + 3, n - 1);
    }
  }

  /** A name goes over no slash. */
  lemma {:induction false} NameHasNoSlash(s: Text, i: nat, uri: bool, acc: Text)
    requires i <= |s| && NameBody(s, i, uri, acc).NameOk?
    ensures forall k | i <= k < NameBody(s, i, uri, acc).next :: s[k] != SLASH
    decreases |s| - i, 1
  {
    if i < |s| && s[i] != SLASH {
      if uri && s[i] == PERCENT {
        var bytes := PercentCharacter(s, i).value;
        TripletsHaveNoSlash(s, i, |bytes|);
        hide PercentCharacter;
        if |bytes| == 1 { CharacterHasNoSlash(s, i + 3, uri, acc, bytes[0]); } else { NameHasNoSlash(s, i + 3 * |bytes|, uri, acc + bytes); }
      } else {
        CharacterHasNoSlash(s, i + 1, uri, acc, s[i]);
      }
    }
  }

  lemma {:induction false} CharacterHasNoSlash(s: Text, i: nat, uri: bool, acc: Text, c: byte)
    requires i <= |s| && Character(s, i, uri, acc, c).NameOk?
    ensures forall k | i <= k < Character(s, i, uri, acc, c).next :: s[k] != SLASH
    decreases |s| - i, 2
  {
    if c != TILDE {
      NameHasNoSlash(s, i, uri, acc + [c]);
    } else {
      NameHasNoSlash(s, i + 1, uri, acc + [if s[i] == '0' as int then TILDE else SLASH]);
    }
  }

  /** There is a token for each slash. */
  lemma {:induction false} TokenForEachSlash(s: Text, i: nat, uri: bool)
    requires i <= |s| && (i == |s| || s[i] == SLASH) && Names(s, i, uri).Tokens?
    ensures |Names(s, i, uri).names| == Slashes(s, i)
    decreases |s| - i
  {
    if i < |s| {
      var next := NameBody(s, i + 1, uri, []).next;
      NameHasNoSlash(s, i + 1, uri, []);
      NoSlashes(s, i + 1, next);
      hide NameBody;
      TokenForEachSlash(s, next, uri);
    }
  }

  /** Tokens in front of what is read after them. */
  function Prefixed(done: seq<Text>, r: ParseResult): (p: ParseResult) {
    match r
    case Invalid(_, _) => r
    case Tokens(names) => Tokens(done + names)
  }

  lemma Prefixed0(r: ParseResult)
    ensures Prefixed([], r) == r
  {
    if r.Tokens? { assert [] + r.names == r.names; }
  }

  lemma PrefixedStep(done: seq<Text>, name: Text, r: ParseResult)
    ensures Prefixed(done, Prefixed([name], r)) == Prefixed(done + [name], r)
  {
    if r.Tokens? { assert done + ([name] + r.names) == done + [name] + r.names; }
  }

  /** One token and the slash before it. */
  lemma NamesStep(s: Text, i: nat, uri: bool)
    requires i < |s| && s[i] == SLASH
    ensures var r := NameBody(s, i + 1, uri, []);
            && (r.NameErr? ==> Names(s, i, uri) == Invalid(r.code, r.offset))
            && (r.NameOk? ==> Names(s, i, uri) == Prefixed([r.name], Names(s, r.next, uri)) && Slashes(s, i) == 1 + Slashes(s, r.next))
    ensures Slashes(s, i) > 0
  {
    if NameBody(s, i + 1, uri, []).NameOk? {
      NameHasNoSlash(s, i + 1, uri, []);
      NoSlashes(s, i + 1, NameBody(s, i + 1, uri, []).next);
    }
  }

  lemma NoSlashAtEnd(s: Text)
    ensures Slashes(s, |s|) == 0
  {
  }

  lemma HoldsAllExtend(held: Text, buffer: Text, tokens: seq<Token>, names: seq<Text>)
    requires HoldsAll(held, tokens, names) && held <= buffer
    ensures HoldsAll(buffer, tokens, names)
  {
    forall k | 0 <= k < |tokens| ensures Holds(buffer, tokens[k], names[k]) {
      var t := tokens[k];
      assert Holds(held, t, names[k]);
      assert buffer[t.start..t.start + |names[k]|] == held[t.start..t.start + |names[k]|];
    }
  }

  lemma HoldsInPrefix(buffer: Text, t: Token, name: Text)
    requires Holds(buffer, t, name)
    ensures Holds(buffer[..t.start + |name| + 1], t, name)
  {
    assert buffer[..t.start + |name| + 1][t.start..t.start + |name|] == buffer[t.start..t.start + |name|];
  }

  lemma HoldsMore(held: Text, buffer: Text, tokens: seq<Token>, names: seq<Text>, t: Token, name: Text)
    requires HoldsAll(held, tokens, names) && held <= buffer && Holds(buffer, t, name)
    ensures HoldsAll(buffer, tokens + [t], names + [name])
  {
    HoldsAllExtend(held, buffer, tokens, names);
  }

  class Pointer {
    var buffer: array<byte>
    var tokens: array<Token>
    var error: Option<(PointerError, nat)>

    constructor ()
      ensures fresh(buffer) && fresh(tokens) && error.None?
    {
      buffer, tokens, error := new byte[0], new Token[0](_ => Token(0, 0)), None;
    }

    /** What the pointer holds after parsing is what the text says. */
    ghost predicate Parsed(s: Text)
      reads this, buffer, tokens
    {
      match ParsePointer(s)
      case Tokens(names) => error.None? && HoldsAll(buffer[..], tokens[..], names)
      case Invalid(code, offset) => error == Some((code, offset)) && buffer.Length == 0 && tokens.Length == 0
    }

    /**
      GenericPointer::Parse. The buffer has as many characters as the source and the array of tokens as many entries as the
      source has slashes, and neither is ever written beyond its end.
     */
    method Parse(s: Text)
      modifies this
      ensures fresh(buffer) && fresh(tokens) && Parsed(s)
    {
      var count: nat := CountSlashes(s);
      tokens := new Token[count](_ => Token(0, 0));
      buffer := new byte[|s|];
      error := None;
      var uri := Peek(s, 0) == HASH;
      var i: nat := if uri then 1 else 0;
      if i != |s| && Peek(s, i) != SLASH {
        error := Some((TokenMustBeginWithSolidus, i));
      } else {
        FillTokens(s, i, uri);
      }
      if error.Some? {
        buffer, tokens := new byte[0], new Token[0](_ => Token(0, 0));
      }
    }

    /** The loop over the tokens, which start at `first`. */
    method FillTokens(s: Text, first: nat, uri: bool)
      requires first == (if uri then 1 else 0) && NameEnds(s, first) && error.None?
      requires buffer.Length == |s| && tokens.Length == Slashes(s, first)
      modifies this`error, buffer, tokens
      ensures match Names(s, first, uri)
              case Tokens(names) => error.None? && HoldsAll(buffer[..], tokens[..], names)
              case Invalid(code, offset) => error == Some((code, offset))
    {
      hide Names, NameBody, Slashes;
      var i: nat, pos: nat, k: nat := first, 0, 0;
      ghost var done: seq<Text> := [];
      ghost var whole := Names(s, first, uri);
      Prefixed0(whole);
      while i < |s|
        invariant NameEnds(s, i) && pos + first <= i && k + Slashes(s, i) == tokens.Length && error.None?
        invariant Prefixed(done, Names(s, i, uri)) == whole
        invariant k == |done| && HoldsAll(buffer[..pos], tokens[..k], done)
        decreases |s| - i
      {
        ghost var held := buffer[..pos];
        NamesStep(s, i, uri);
        var err, next, end := TakeName(s, i + 1, uri, buffer, pos);
        if err.Some? {
          error := Some((err.value, next));
          return;
        }
        ghost var name := NameBody(s, i + 1, uri, []).name;
        HoldsMore(held, buffer[..end + 1], tokens[..k], done, TokenOf(pos, end), name) by {
          assert buffer[..][..end + 1] == buffer[..end + 1];
          HoldsInPrefix(buffer[..], TokenOf(pos, end), name);
        }
        tokens[k] := TokenOf(pos, end);
        assert tokens[..k + 1] == tokens[..k] + [TokenOf(pos, end)];
        PrefixedStep(done, name, Names(s, next, uri));
        done := done + [name];
        k := k + 1;
        pos := end + 1;
        i := next;
      }
      NoNames(s, uri);
      NoSlashAtEnd(s);
      assert tokens[..k] == tokens[..];
      HoldsAllExtend(buffer[..pos], buffer[..], tokens[..], done);
    }

    method CountSlashes(s: Text) returns (count: nat)
      ensures count == Slashes(s, 0)
    {
      count := 0;
      var i: nat := 0;
      while i < |s|
        invariant i <= |s| && count + Slashes(s, i) == Slashes(s, 0)
      {
        if s[i] == SLASH {
          count := count + 1;
        }
        i := i + 1;
      }
    }
  }

  // ---------------------------------------------------------------------------------------------
  // Stringify as it writes to its stream
  // ---------------------------------------------------------------------------------------------

  /** The text of a name in either form. */
  function NameText(name: Text, k: nat, uri: bool): (r: Option<Text>)
    requires k <= |name|
  {
    if uri then FragmentName(name, k) else Some(EscapedName(name, k))
  }

  function NamesText(names: seq<Text>, uri: bool): (r: Option<Text>) {
    if uri then Fragments(names) else Some(Stringify(names))
  }

  lemma BeforeTwice(a: Text, b: Text, r: Option<Text>)
    ensures Before(a, Before(b, r)) == Before(a + b, r)
  {
    if r.Some? { assert a + (b + r.value) == a + b + r.value; }
  }

  lemma BeforeNothing(r: Option<Text>)
    ensures Before([], r) == r
  {
    if r.Some? { assert [] + r.value == r.value; }
  }

  /** A character, or as many bytes as are percent-encoded together, and the rest of the name. */
  lemma NameTextStep(name: Text, k: nat, uri: bool)
    requires k < |name|
    ensures uri && name[k] != TILDE && name[k] != SLASH && NeedPercentEncode(name[k]) ==>
              if Utf8.Validate(name, k)
              then k + Utf8.Width(name[k]) <= |name| &&
                   NameText(name, k, uri) == Before(Percent(name[k..k + Utf8.Width(name[k])]), NameText(name, k + Utf8.Width(name[k]), uri))
              else NameText(name, k, uri) == None
    ensures !(uri && name[k] != TILDE && name[k] != SLASH && NeedPercentEncode(name[k])) ==>
              NameText(name, k, uri) == Before(EscapedCharacter(name[k]), NameText(name, k + 1, uri))
  {
    hide Utf8.Validate, Utf8.Width, Percent, EscapedCharacter, NeedPercentEncode;
    if Utf8.Validate(name, k) { Utf8.ValidFits(name, k); }
  }

  method WriteName(name: Text, uri: bool) returns (ok: bool, out: Text)
    ensures ok <==> NameText(name, 0, uri).Some?
    ensures ok ==> out == NameText(name, 0, uri).value
  {
    hide NameText, Utf8.Validate, Utf8.Width, NeedPercentEncode, Percent, Before;
    out := [];
    var j: nat := 0;
    BeforeNothing(NameText(name, 0, uri));
    while j < |name|
      invariant j <= |name| && NameText(name, 0, uri) == Before(out, NameText(name, j, uri))
      decreases |name| - j
    {
      NameTextStep(name, j, uri);
      var c := name[j];
      if c == TILDE {
        BeforeTwice(out, [TILDE, '0' as int], NameText(name, j + 1, uri));
        out := out + [TILDE, '0' as int];
        j := j + 1;
      } else if c == SLASH {
        BeforeTwice(out, [TILDE, '1' as int], NameText(name, j + 1, uri));
        out := out + [TILDE, '1' as int];
        j := j + 1;
      } else if uri && NeedPercentEncode(c) {
        if !Utf8.Validate(name, j) {
          BeforeNone(out);
          return false, out;
        }
        var n := Utf8.Width(c);
        BeforeTwice(out, Percent(name[j..j + n]), NameText(name, j + n, uri));
        out := out + Percent(name[j..j + n]);
        j := j + n;
      } else {
        BeforeTwice(out, [c], NameText(name, j + 1, uri));
        out := out + [c];
        j := j + 1;
      }
    }
    NameTextEnd(name, uri);
    BeforeEnd(out);
    ok := true;
  }

  lemma NameTextEnd(name: Text, uri: bool)
    ensures NameText(name, |name|, uri) == Some([])
  {
  }

  lemma BeforeNone(a: Text)
    ensures Before(a, None) == None
  {
  }

  lemma BeforeEnd(a: Text)
    ensures Before(a, Some([])) == Some(a)
  {
    assert a + [] == a;
  }

  /** GenericPointer::Stringify. */
  method Write(names: seq<Text>, uri: bool) returns (ok: bool, out: Text)
    ensures !uri ==> ok && out == Stringify(names)
    ensures uri ==> (ok <==> StringifyFragment(names).Some?)
    ensures uri && ok ==> out == StringifyFragment(names).value
  {
    hide Stringify, Fragments, EscapedName, FragmentName;
    out := if uri then [HASH] else [];
    ghost var whole := Before(out, NamesText(names, uri));
    if !uri {
      BeforeNothing(NamesText(names, uri));
      assert whole == Some(Stringify(names));
    }
    var k: nat := 0;
    assert names[0..] == names;
    while k < |names|
      invariant k <= |names| && Before(out, NamesText(names[k..], uri)) == whole
    {
      NamesTextStep(names[k..], uri);
      assert names[k..][1..] == names[k + 1..];
      var good, text := WriteName(names[k], uri);
      if !good {
        BeforeNone(out);
        return false, out;
      }
      BeforeTwice(out, [SLASH] + text, NamesText(names[k + 1..], uri));
      out := out + ([SLASH] + text);
      k := k + 1;
    }
    assert names[k..] == [];
    NamesTextEnd(uri);
    BeforeEnd(out);
    ok := true;
  }

  lemma NamesTextStep(names: seq<Text>, uri: bool)
    requires names != []
    ensures var first := NameText(names[0], 0, uri);
            NamesText(names, uri) == if first.None? then None else Before([SLASH] + first.value, NamesText(names[1..], uri))
  {
    hide EscapedName, FragmentName;
  }

  lemma NamesTextEnd(uri: bool)
    ensures NamesText([], uri) == Some([])
  {
  }
}
