/**
  The text of a JSON Pointer as RFC 6901 defines it, without regard to how pointer.h reads it: reference tokens in which tildes
  escape, and their evaluation. It is proved that the string form is read as the RFC says, and to what extent the fragment form is.
 */
module JsonPointerText {
  import opened Wrappers
  import opened Bytes
  import opened JsonSyntax
  import opened JsonPointer
  import Utf8

  // ---------------------------------------------------------------------------------------------
  // Section 3 and section 4: the string form
  // ---------------------------------------------------------------------------------------------

  /** A reference token: no slash in it, and every tilde is followed by a zero or a one. */
  ghost predicate IsToken(raw: Text)
    decreases |raw|
  {
    if raw == [] then true
    else if raw[0] == 126 then |raw| >= 2 && (raw[1] == 48 || raw[1] == 49) && IsToken(raw[2..])
    else raw[0] != 47 && IsToken(raw[1..])
  }

  /** Every tilde with that digit behind it is replaced. */
  ghost function Replaced(t: Text, digit: byte, c: byte): (r: Text)
    decreases |t|
  {
    if t == [] then []
    else if |t| >= 2 && t[0] == 126 && t[1] == digit then [c] + Replaced(t[2..], digit, c)
    else [t[0]] + Replaced(t[1..], digit, c)
  }

  /** First every ~1 becomes a slash, and then every ~0 a tilde. */
  ghost function Evaluated(raw: Text): (name: Text) {
    Replaced(Replaced(raw, 49, 47), 48, 126)
  }

  /** Reference tokens, each behind a slash. */
  ghost function Joined(raws: seq<Text>): (r: Text)
    decreases |raws|
  {
    if raws == [] then [] else [47] + (raws[0] + Joined(raws[1..]))
  }

  ghost function AllEvaluated(raws: seq<Text>): (names: seq<Text>)
    ensures |names| == |raws|
    decreases |raws|
  {
    if raws == [] then [] else [Evaluated(raws[0])] + AllEvaluated(raws[1..])
  }

  ghost predicate AllTokens(raws: seq<Text>) {
    forall raw | raw in raws :: IsToken(raw)
  }

  lemma EvaluatedPlain(c: byte, rest: Text)
    requires c != 126
    ensures Evaluated([c] + rest) == [c] + Evaluated(rest)
  {
    assert ([c] + rest)[1..] == rest;
    var slashed := Replaced(rest, 49, 47);
    assert ([c] + slashed)[1..] == slashed;
  }

  lemma EvaluatedTilde(rest: Text)
    ensures Evaluated([126, 48] + rest) == [126] + Evaluated(rest)
  {
    var t, slashed := [126, 48] + rest, Replaced(rest, 49, 47);
    assert t[1..] == [48] + rest && ([48] + rest)[1..] == rest;
    assert Replaced([48] + rest, 49, 47) == [48] + slashed;
    assert Replaced(t, 49, 47) == [126] + ([48] + slashed) == [126, 48] + slashed;
    assert ([126, 48] + slashed)[2..] == slashed;
  }

  lemma EvaluatedSlash(rest: Text)
    ensures Evaluated([126, 49] + rest) == [47] + Evaluated(rest)
  {
    var t, slashed := [126, 49] + rest, Replaced(rest, 49, 47);
    assert t[2..] == rest;
    assert ([47] + slashed)[1..] == slashed;
  }

  lemma EvaluatedNothing()
    ensures Evaluated([]) == []
  {
  }

  /** How a name in the string form is read on. */
  lemma NameSteps(s: Text, i: nat, acc: Text)
    requires i < |s| && s[i] != 47
    ensures s[i] != 126 ==> NameBody(s, i, false, acc) == NameBody(s, i + 1, false, acc + [s[i]])
    ensures s[i] == 126 && (i + 1 == |s| || (s[i + 1] != 48 && s[i + 1] != 49)) ==> NameBody(s, i, false, acc) == NameErr(InvalidEscape, i + 1)
    ensures s[i] == 126 && i + 1 < |s| && s[i + 1] == 48 ==> NameBody(s, i, false, acc) == NameBody(s, i + 2, false, acc + [126])
    ensures s[i] == 126 && i + 1 < |s| && s[i + 1] == 49 ==> NameBody(s, i, false, acc) == NameBody(s, i + 2, false, acc + [47])
  {
  }

  lemma NameStops(s: Text, i: nat, acc: Text)
    requires i <= |s| && (i == |s| || s[i] == 47)
    ensures NameBody(s, i, false, acc) == NameOk(acc, i)
  {
  }

  /** A reference token is read as what it evaluates to. */
  lemma {:induction false} TokenReads(s: Text, i: nat, raw: Text, acc: Text)
    requires IsToken(raw) && At(s, i, raw) && NameEnds(s, i + |raw|)
    ensures NameBody(s, i, false, acc) == NameOk(acc + Evaluated(raw), i + |raw|)
    decreases |raw|
  {
    hide NameBody, Evaluated, At;
    if raw == [] {
      EvaluatedNothing();
      NameStops(s, i, acc);
      assert acc + [] == acc;
    } else {
      AtFirst(s, i, raw);
      NameSteps(s, i, acc);
      if raw[0] != 126 {
        var rest := raw[1..];
        assert raw == [raw[0]] + rest;
        AtRest(s, i, raw, 1);
        EvaluatedPlain(raw[0], rest);
        TokenReads(s, i + 1, rest, acc + [raw[0]]);
        assert acc + [raw[0]] + Evaluated(rest) == acc + ([raw[0]] + Evaluated(rest));
      } else {
        EscapeReads(s, i, raw, acc);
        TokenReads(s, i + 2, raw[2..], acc + [if raw[1] == 48 then 126 else 47]);
      }
    }
  }

  lemma EscapeReads(s: Text, i: nat, raw: Text, acc: Text)
    requires |raw| >= 2 && raw[0] == 126 && (raw[1] == 48 || raw[1] == 49) && At(s, i, raw)
    ensures At(s, i + 2, raw[2..])
    ensures var c: byte := if raw[1] == 48 then 126 else 47;
            && NameBody(s, i, false, acc) == NameBody(s, i + 2, false, acc + [c])
            && acc + [c] + Evaluated(raw[2..]) == acc + Evaluated(raw)
  {
    hide NameBody, Evaluated, At;
    var rest := raw[2..];
    AtIndex(s, i, raw, 0);
    AtIndex(s, i, raw, 1);
    AtRest(s, i, raw, 2);
    NameSteps(s, i, acc);
    assert raw == [126, raw[1]] + rest;
    if raw[1] == 48 { EvaluatedTilde(rest); } else { EvaluatedSlash(rest); }
  }

  lemma AtFirst(s: Text, i: nat, part: Text)
    requires At(s, i, part) && part != []
    ensures i < |s| && s[i] == part[0] && i + |part| <= |s|
  {
    AtIndex(s, i, part, 0);
  }

  lemma AtRest(s: Text, i: nat, part: Text, k: nat)
    requires At(s, i, part) && k <= |part|
    ensures At(s, i + k, part[k..]) && i + |part| <= |s|
  {
    assert part == part[..k] + part[k..];
    AtConcat(s, i, part[..k], part[k..]);
  }

  /** What is read as a name is a reference token. */
  lemma {:induction false} TokenFound(s: Text, i: nat, acc: Text)
    requires i <= |s| && NameBody(s, i, false, acc).NameOk?
    ensures var r := NameBody(s, i, false, acc);
            r.next <= |s| && i <= r.next && IsToken(s[i..r.next]) && r.name == acc + Evaluated(s[i..r.next])
    decreases |s| - i
  {
    hide NameBody, Evaluated;
    if i == |s| || s[i] == 47 {
      NameStops(s, i, acc);
      EvaluatedNothing();
      assert s[i..i] == [];
    } else {
      NameSteps(s, i, acc);
      if s[i] != 126 {
        TokenFound(s, i + 1, acc + [s[i]]);
        var next := NameBody(s, i, false, acc).next;
        assert s[i..next] == [s[i]] + s[i + 1..next];
        EvaluatedPlain(s[i], s[i + 1..next]);
      } else {
        EscapeFound(s, i, acc);
      }
    }
  }

  lemma {:induction false} EscapeFound(s: Text, i: nat, acc: Text)
    requires i < |s| && s[i] == 126 && NameBody(s, i, false, acc).NameOk?
    ensures var r := NameBody(s, i, false, acc);
            r.next <= |s| && i <= r.next && IsToken(s[i..r.next]) && r.name == acc + Evaluated(s[i..r.next])
    decreases |s| - i, 0
  {
    hide NameBody, Evaluated;
    NameSteps(s, i, acc);
    var c: byte := if s[i + 1] == 48 then 126 else 47;
    TokenFound(s, i + 2, acc + [c]);
    var next := NameBody(s, i, false, acc).next;
    var rest := s[i + 2..next];
    assert s[i..next] == [126, s[i + 1]] + rest && s[i..next][2..] == rest;
    if s[i + 1] == 48 { EvaluatedTilde(rest); } else { EvaluatedSlash(rest); }
    assert acc + [c] + Evaluated(rest) == acc + ([c] + Evaluated(rest));
  }

  lemma {:induction false} TokensRead(s: Text, i: nat, raws: seq<Text>)
    requires AllTokens(raws) && At(s, i, Joined(raws)) && i + |Joined(raws)| == |s|
    ensures NameEnds(s, i) && Names(s, i, false) == Tokens(AllEvaluated(raws))
    decreases |raws|
  {
    hide NameBody, Names, IsToken, Evaluated;
    if raws == [] {
      NoNames(s, false);
    } else {
      var raw, rest := raws[0], Joined(raws[1..]);
      assert raw in raws;
      AtConcat(s, i, [47], raw + rest);
      AtByte(s, i, 47);
      AtConcat(s, i + 1, raw, rest);
      TokensRead(s, i + 1 + |raw|, raws[1..]);
      TokenReads(s, i + 1, raw, []);
      assert [] + Evaluated(raw) == Evaluated(raw);
      assert AllEvaluated(raws)[1..] == AllEvaluated(raws[1..]);
      OneName(s, i, false, AllEvaluated(raws), i + 1 + |raw|);
    }
  }

  /** Every text of the grammar is read as its reference tokens evaluate. */
  lemma PointerReads(raws: seq<Text>)
    requires AllTokens(raws)
    ensures ParsePointer(Joined(raws)) == Tokens(AllEvaluated(raws))
  {
    hide Names, IsToken;
    var s := Joined(raws);
    assert s[0..|s|] == s;
    TokensRead(s, 0, raws);
  }

  lemma {:induction false} TokensFound(s: Text, i: nat) returns (raws: seq<Text>)
    requires NameEnds(s, i) && Names(s, i, false).Tokens?
    ensures AllTokens(raws) && s[i..] == Joined(raws) && Names(s, i, false) == Tokens(AllEvaluated(raws))
    decreases |s| - i
  {
    hide NameBody, IsToken, Evaluated;
    if i == |s| {
      raws := [];
    } else {
      TokenFound(s, i + 1, []);
      var r := NameBody(s, i + 1, false, []);
      var more := TokensFound(s, r.next);
      var raw := s[i + 1..r.next];
      raws := [raw] + more;
      assert raws[1..] == more;
      assert [] + Evaluated(raw) == Evaluated(raw);
      assert s[i..] == [47] + (raw + s[r.next..]);
    }
  }

  /** What is read as a pointer, and does not begin with a hash sign, is a text of the grammar. */
  lemma PointerFound(s: Text) returns (raws: seq<Text>)
    requires Peek(s, 0) != 35 && ParsePointer(s).Tokens?
    ensures AllTokens(raws) && s == Joined(raws) && ParsePointer(s) == Tokens(AllEvaluated(raws))
  {
    hide Names, IsToken, Joined, AllEvaluated;
    raws := TokensFound(s, 0);
    assert s[0..] == s;
  }

  // ---------------------------------------------------------------------------------------------
  // Section 6: the fragment form
  // ---------------------------------------------------------------------------------------------

  /** The text from `i` on with its triplets decoded; what is no triplet stays as it is. */
  ghost function PercentDecoded(s: Text, i: nat): (r: Text)
    decreases |s| - i
  {
    if i >= |s| then []
    else if PercentByte(s, i).Some? then [PercentByte(s, i).value] + PercentDecoded(s, i + 3)
    else [s[i]] + PercentDecoded(s, i + 1)
  }

  /** A triplet from `i` on stands for a slash. */
  ghost predicate EncodedSlash(s: Text, i: nat)
    decreases |s| - i
  {
    i < |s| && (if PercentByte(s, i).Some? then PercentByte(s, i).value == 47 || EncodedSlash(s, i + 3) else EncodedSlash(s, i + 1))
  }

  /** d[j..] is what the text from `i` on decodes to, and no slash is encoded there. */
  ghost predicate Decodes(s: Text, i: nat, d: Text, j: nat) {
    i <= |s| && j <= |d| && PercentDecoded(s, i) == d[j..] && !EncodedSlash(s, i)
  }

  lemma DecodesPlain(s: Text, i: nat, d: Text, j: nat)
    requires Decodes(s, i, d, j) && i < |s| && s[i] != 37
    ensures j < |d| && d[j] == s[i] && Decodes(s, i + 1, d, j + 1)
  {
    assert PercentByte(s, i).None?;
    assert d[j..][0] == s[i] && d[j..][1..] == d[j + 1..];
  }

  lemma DecodesTriplet(s: Text, i: nat, d: Text, j: nat)
    requires Decodes(s, i, d, j) && PercentByte(s, i).Some?
    ensures j < |d| && d[j] == PercentByte(s, i).value != 47 && Decodes(s, i + 3, d, j + 1)
  {
    hide HexDigit;
    assert d[j..][0] == d[j] && d[j..][1..] == d[j + 1..];
  }

  lemma {:induction false} DecodesTriplets(s: Text, i: nat, n: nat, d: Text, j: nat)
    requires Decodes(s, i, d, j) && PercentBytes(s, i, n).Some?
    ensures j + n <= |d| && d[j..j + n] == PercentBytes(s, i, n).value && Decodes(s, i + 3 * n, d, j + n)
    decreases n
  {
    hide Decodes, PercentByte;
    if n == 0 {
      DecodesInside(s, i, d, j);
    } else {
      DecodesTriplet(s, i, d, j);
      DecodesTriplets(s, i + 3, n - 1, d, j + 1);
      assert d[j..j + n] == [d[j]] + d[j + 1..j + n];
    }
  }

  lemma DecodesInside(s: Text, i: nat, d: Text, j: nat)
    requires Decodes(s, i, d, j)
    ensures i <= |s| && j <= |d| && (i == |s| ==> j == |d|)
  {
  }

  /** The bytes of a character that takes more than one of them. */
  lemma LongCharacter(bytes: Text)
    requires Utf8.Validate(bytes, 0) && |bytes| == Utf8.Width(bytes[0]) >= 2
    ensures forall c | c in bytes :: c >= 0x80
  {
    hide Utf8.Validate;
    Utf8.ValidateCases(bytes, 0);
  }

  /** Bytes that are neither slashes nor tildes are taken as they are. */
  lemma {:induction false} HighBytes(d: Text, j: nat, n: nat, acc: Text)
    requires j + n <= |d| && forall k | j <= k < j + n :: d[k] >= 0x80
    ensures NameBody(d, j, false, acc) == NameBody(d, j + n, false, acc + d[j..j + n])
    decreases n
  {
    hide NameBody;
    if n == 0 {
      assert acc + d[j..j] == acc;
    } else {
      NameSteps(d, j, acc);
      HighBytes(d, j + 1, n - 1, acc + [d[j]]);
      assert acc + [d[j]] + d[j + 1..j + n] == acc + d[j..j + n];
    }
  }

  /** A name of the fragment form is the name that its decoded text gives in the string form. */
  lemma {:induction false} NameDecodes(s: Text, i: nat, acc: Text, d: Text, j: nat) returns (end: nat)
    requires Decodes(s, i, d, j) && NameBody(s, i, true, acc).NameOk?
    ensures var r := NameBody(s, i, true, acc);
            NameBody(d, j, false, acc) == NameOk(r.name, end) && Decodes(s, r.next, d, end)
    decreases |s| - i, 1
  {
    hide NameBody, Decodes, PercentByte;
    DecodesInside(s, i, d, j);
    if i == |s| || s[i] == 47 {
      if i < |s| { DecodesPlain(s, i, d, j); }
      NameDone(s, i, true, acc);
      NameStops(d, j, acc);
      end := j;
    } else {
      FragmentSteps(s, i, acc);
      if s[i] == 37 {
        end := EncodedDecodes(s, i, acc, d, j);
      } else {
        DecodesPlain(s, i, d, j);
        end := CharacterDecodes(s, i + 1, s[i], acc, d, j);
      }
    }
  }

  /** How a name in the fragment form is read on. */
  lemma FragmentSteps(s: Text, i: nat, acc: Text)
    requires i < |s| && s[i] != 47 && NameBody(s, i, true, acc).NameOk?
    ensures s[i] != 37 ==> NameBody(s, i, true, acc) == Character(s, i + 1, true, acc, s[i])
    ensures s[i] == 37 ==> PercentCharacter(s, i).Some?
    ensures s[i] == 37 ==> var bytes := PercentCharacter(s, i).value;
                           NameBody(s, i, true, acc) == if |bytes| == 1 then Character(s, i + 3, true, acc, bytes[0]) else NameBody(s, i + 3 * |bytes|, true, acc + bytes)
  {
  }

  lemma CharacterBytes(s: Text, i: nat)
    requires PercentCharacter(s, i).Some?
    ensures var bytes := PercentCharacter(s, i).value;
            && PercentBytes(s, i, |bytes|) == Some(bytes) && PercentByte(s, i) == Some(bytes[0])
            && (|bytes| > 1 ==> forall c | c in bytes :: c >= 0x80)
  {
    hide Utf8.Validate, Utf8.Width;
    var bytes := PercentCharacter(s, i).value;
    if |bytes| > 1 { LongCharacter(bytes); }
  }

  lemma {:induction false} EncodedDecodes(s: Text, i: nat, acc: Text, d: Text, j: nat) returns (end: nat)
    requires Decodes(s, i, d, j) && i < |s| && s[i] == 37 && NameBody(s, i, true, acc).NameOk?
    ensures var r := NameBody(s, i, true, acc);
            NameBody(d, j, false, acc) == NameOk(r.name, end) && Decodes(s, r.next, d, end)
    decreases |s| - i, 0
  {
    hide NameBody, Decodes, PercentByte, PercentBytes, PercentCharacter;
    FragmentSteps(s, i, acc);
    CharacterBytes(s, i);
    var bytes := PercentCharacter(s, i).value;
    if |bytes| == 1 {
      DecodesTriplet(s, i, d, j);
      end := CharacterDecodes(s, i + 3, bytes[0], acc, d, j);
    } else {
      DecodesTriplets(s, i, |bytes|, d, j);
      assert forall k | j <= k < j + |bytes| :: d[k] == d[j..j + |bytes|][k - j] && d[j..j + |bytes|][k - j] in bytes;
      HighBytes(d, j, |bytes|, acc);
      end := NameDecodes(s, i + 3 * |bytes|, acc + bytes, d, j + |bytes|);
    }
  }

  /** A character that has been taken, raw or encoded. */
  lemma {:induction false} CharacterDecodes(s: Text, i: nat, c: byte, acc: Text, d: Text, j: nat) returns (end: nat)
    requires j < |d| && d[j] == c != 47 && Decodes(s, i, d, j + 1) && i <= |s| && Character(s, i, true, acc, c).NameOk?
    ensures var r := Character(s, i, true, acc, c);
            NameBody(d, j, false, acc) == NameOk(r.name, end) && Decodes(s, r.next, d, end)
    decreases |s| - i, 2
  {
    hide NameBody, Decodes, PercentByte;
    NameSteps(d, j, acc);
    if c != 126 {
      end := NameDecodes(s, i, acc + [c], d, j + 1);
    } else {
      DecodesPlain(s, i, d, j + 1);
      end := NameDecodes(s, i + 1, acc + [if s[i] == 48 then 126 else 47], d, j + 2);
    }
  }

  lemma {:induction false} NamesDecode(s: Text, i: nat, d: Text, j: nat)
    requires NameEnds(s, i) && Decodes(s, i, d, j) && Names(s, i, true).Tokens?
    ensures NameEnds(d, j) && Names(d, j, false) == Names(s, i, true)
    decreases |s| - i
  {
    hide NameBody, Decodes;
    DecodesInside(s, i, d, j);
    if i < |s| {
      DecodesPlain(s, i, d, j);
      var r := NameBody(s, i + 1, true, []);
      var end := NameDecodes(s, i + 1, [], d, j + 1);
      NamesDecode(s, r.next, d, end);
    }
  }

  // ---------------------------------------------------------------------------------------------
  // Slashes that are encoded
  // ---------------------------------------------------------------------------------------------

  lemma {:induction false} SlashesShift(c: byte, t: Text, k: nat)
    requires k <= |t|
    ensures Slashes([c] + t, k + 1) == Slashes(t, k)
    decreases |t| - k
  {
    if k < |t| { SlashesShift(c, t, k + 1); }
  }

  /** Decoding makes slashes of the triplets that stand for them. */
  lemma {:induction false} DecodedSlashes(s: Text, i: nat)
    requires i <= |s|
    ensures Slashes(PercentDecoded(s, i), 0) >= Slashes(s, i)
    ensures EncodedSlash(s, i) ==> Slashes(PercentDecoded(s, i), 0) > Slashes(s, i)
    decreases |s| - i
  {
    hide PercentByte;
    if i < |s| {
      if PercentByte(s, i).Some? {
        TripletHasNoSlash(s, i);
        var rest := PercentDecoded(s, i + 3);
        DecodedSlashes(s, i + 3);
        SlashesShift(PercentByte(s, i).value, rest, 0);
      } else {
        DecodedSlashes(s, i + 1);
        SlashesShift(s[i], PercentDecoded(s, i + 1), 0);
      }
    }
  }

  lemma TripletHasNoSlash(s: Text, i: nat)
    requires PercentByte(s, i).Some?
    ensures i + 3 <= |s| && Slashes(s, i) == Slashes(s, i + 3)
  {
    assert HexDigit(47).None? && s[i] != 47 && s[i + 1] != 47 && s[i + 2] != 47;
    hide HexDigit;
    NoSlashes(s, i, i + 3);
  }

  /**
    A fragment that is read gives the tokens that its decoded text gives, as section 6 demands, if and only if no triplet in it
    stands for a slash: such a slash does not separate tokens.
   */
  lemma FragmentIsDecoded(t: Text)
    requires ParsePointer([35] + t).Tokens?
    ensures ParsePointer(PercentDecoded([35] + t, 1)) == ParsePointer([35] + t) <==> !EncodedSlash([35] + t, 1)
  {
    hide Names, EncodedSlash, PercentByte;
    var s := [35] + t;
    var d := PercentDecoded(s, 1);
    DecodedStarts(s);
    if EncodedSlash(s, 1) {
      DecodedSlashes(s, 1);
      TokenForEachSlash(s, 1, true);
      if ParsePointer(d).Tokens? { TokenForEachSlash(d, 0, false); }
    } else {
      assert d[0..] == d;
      NamesDecode(s, 1, d, 0);
    }
  }

  /** Decoding keeps the slash at the beginning. */
  lemma DecodedStarts(s: Text)
    requires |s| >= 1 && (|s| == 1 || s[1] == 47)
    ensures var d := PercentDecoded(s, 1); if |s| == 1 then d == [] else d != [] && d[0] == 47
  {
  }

  /** An encoded slash is a character of a name: #/a%2Fb has one token, and /a/b, to which it decodes, has two. */
  lemma EncodedSlashIsNoSeparator()
    ensures ParsePointer([35, 47, 97, 37, 50, 70, 98]) == Tokens([[97, 47, 98]])
    ensures ParsePointer([47, 97, 47, 98]) == Tokens([[97], [98]])
  {
    var s: Text := [35, 47, 97, 37, 50, 70, 98];
    assert PercentByte(s, 3) == Some(47);
    assert PercentBytes(s, 6, 0) == Some([]) && [47] + [] == [47];
    assert PercentBytes(s, 3, 1) == Some([47]);
    assert Utf8.Validate([47], 0);
    assert NameBody(s, 7, true, [97, 47, 98]) == NameOk([97, 47, 98], 7);
    assert [] + [97] == [97] && [97] + [47] == [97, 47] && [97, 47] + [98] == [97, 47, 98];
    assert NameBody(s, 6, true, [97, 47]) == NameOk([97, 47, 98], 7);
    assert NameBody(s, 3, true, [97]) == NameOk([97, 47, 98], 7);
    assert NameBody(s, 2, true, []) == NameOk([97, 47, 98], 7);
    assert Names(s, 7, true) == Tokens([]);
    var d: Text := [47, 97, 47, 98];
    assert NameBody(d, 2, false, [97]) == NameOk([97], 2) && NameBody(d, 4, false, [98]) == NameOk([98], 4);
    assert [] + [98] == [98];
    assert Names(d, 4, false) == Tokens([]);
    assert Names(d, 2, false) == Tokens([[98]]);
    assert [[97]] + [[98]] == [[97], [98]];
  }

  // ---------------------------------------------------------------------------------------------
  // What is refused, and what is written
  // ---------------------------------------------------------------------------------------------

  /** The unreserved characters of RFC 3986, section 2.3: letters, digits, hyphen, period, underscore and tilde. */
  predicate Unreserved(c: byte) {
    65 <= c <= 90 || 97 <= c <= 122 || 48 <= c <= 57 || c == 45 || c == 46 || c == 95 || c == 126
  }

  /** What is wrong at the offset of an error. */
  ghost predicate Fault(s: Text, uri: bool, code: PointerError, offset: nat) {
    match code
    case InvalidEscape =>
      && 0 < offset <= |s| && (offset == |s| || (s[offset] != 48 && s[offset] != 49))
      && (s[offset - 1] == 126 || (uri && offset >= 3 && PercentByte(s, offset - 3) == Some(126)))
    case InvalidPercentEncoding => uri && offset < |s| && s[offset] == 37 && PercentCharacter(s, offset).None?
    case CharacterMustPercentEncode => uri && offset < |s| && s[offset] != 37 && s[offset] != 47 && !Unreserved(s[offset])
    case TokenMustBeginWithSolidus => false
  }

  lemma {:induction false} NameFault(s: Text, i: nat, uri: bool, acc: Text)
    requires i <= |s| && NameBody(s, i, uri, acc).NameErr?
    ensures Fault(s, uri, NameBody(s, i, uri, acc).code, NameBody(s, i, uri, acc).offset)
    decreases |s| - i, 1
  {
    hide PercentByte, PercentBytes;
    if uri && s[i] == 37 {
      if PercentCharacter(s, i).Some? {
        var bytes := PercentCharacter(s, i).value;
        if |bytes| == 1 {
          CharacterBytes(s, i);
          CharacterFault(s, i + 3, uri, acc, bytes[0]);
        } else {
          NameFault(s, i + 3 * |bytes|, uri, acc + bytes);
        }
      }
    } else if !(uri && NeedPercentEncode(s[i])) {
      CharacterFault(s, i + 1, uri, acc, s[i]);
    }
  }

  lemma {:induction false} CharacterFault(s: Text, i: nat, uri: bool, acc: Text, c: byte)
    requires 0 < i <= |s| && Character(s, i, uri, acc, c).NameErr?
    requires s[i - 1] == c || (uri && i >= 3 && PercentByte(s, i - 3) == Some(c))
    ensures Fault(s, uri, Character(s, i, uri, acc, c).code, Character(s, i, uri, acc, c).offset)
    decreases |s| - i, 2
  {
    hide PercentByte, PercentCharacter;
    if c != 126 {
      NameFault(s, i, uri, acc + [c]);
    } else if i < |s| && s[i] == 48 {
      NameFault(s, i + 1, uri, acc + [126]);
    } else if i < |s| && s[i] == 49 {
      NameFault(s, i + 1, uri, acc + [47]);
    }
  }

  lemma {:induction false} NamesFault(s: Text, i: nat, uri: bool)
    requires NameEnds(s, i) && Names(s, i, uri).Invalid?
    ensures Fault(s, uri, Names(s, i, uri).code, Names(s, i, uri).offset)
    decreases |s| - i
  {
    hide NameBody, Fault;
    var r := NameBody(s, i + 1, uri, []);
    if r.NameErr? {
      NameFault(s, i + 1, uri, []);
    } else {
      NamesFault(s, r.next, uri);
    }
  }

  /** A text that is refused does not begin with a slash, behind the hash sign if there is one, or there is a fault at the offset. */
  lemma PointerFault(s: Text)
    requires ParsePointer(s).Invalid?
    ensures var r := ParsePointer(s);
            var uri := |s| > 0 && s[0] == 35;
            var first := if uri then 1 else 0;
            if first < |s| && s[first] == 47 then Fault(s, uri, r.code, r.offset)
            else first < |s| && r == Invalid(TokenMustBeginWithSolidus, first)
  {
    hide Names, Fault;
    var uri := |s| > 0 && s[0] == 35;
    var first := if uri then 1 else 0;
    NoNames(s, uri);
    if first < |s| && s[first] == 47 { NamesFault(s, first, uri); }
  }

  /** In the fragment form the unreserved characters but the tilde stand for themselves, tildes and slashes are escaped, and others encoded. */
  lemma FragmentCharacter(c: byte)
    requires c < 128
    ensures FragmentName([c], 0) ==
            Some(if c == 126 then [126, 48] else if c == 47 then [126, 49] else if Unreserved(c) then [c]
                 else [37, "0123456789ABCDEF"[c / 16] as int, "0123456789ABCDEF"[c % 16] as int])
  {
    hide FragmentName;
    OneCharacter(c);
    if !Plain(c) { OneTriplet(c); }
    hide Percent;
  }

  lemma OneCharacter(c: byte)
    requires c < 128
    ensures FragmentName([c], 0) == Some(if Plain(c) then EscapedCharacter(c) else Percent([c]))
  {
    hide EscapedCharacter, Percent, Utf8.Validate, NeedPercentEncode;
    var name: Text := [c];
    NoFragment(name);
    Utf8.ValidateCases(name, 0);
    assert name[0..1] == name && EscapedCharacter(c) + [] == EscapedCharacter(c) && Percent(name) + [] == Percent(name);
  }

  lemma OneTriplet(c: byte)
    ensures Percent([c]) == [37, "0123456789ABCDEF"[c / 16] as int, "0123456789ABCDEF"[c % 16] as int]
  {
    assert Percent([c]) == Percent([c])[..3] && Percent([]) == [];
  }

  // ---------------------------------------------------------------------------------------------
  // The index of a token
  // ---------------------------------------------------------------------------------------------

  const NO_INDEX := 0xFFFF_FFFF

  /** Digits, of which the first is no zero unless it is the only one. */
  predicate IsNumber(name: Text) {
    name != [] && (forall k | 0 <= k < |name| :: IsDigit(name[k])) && (|name| > 1 ==> name[0] != 48)
  }

  /** The number that the first k digits write. */
  function Value(name: Text, k: nat): (v: nat)
    requires IsNumber(name) && k <= |name|
  {
    if k == 0 then 0 else 10 * Value(name, k - 1) + (name[k - 1] - 48)
  }

  /** With one of the first n digits the number, in 32 bits, becomes smaller. */
  ghost predicate Shrinks(name: Text, n: nat)
    requires IsNumber(name) && n <= |name|
  {
    exists k :: 0 < k <= n && Value(name, k) % TWO32 < Value(name, k - 1) % TWO32
  }

  /** The index that is kept with a token. A number that does not fit 32 bits is noticed only when it becomes smaller with a digit. */
  method ReadIndex(name: Text) returns (index: nat)
    ensures index == if !IsNumber(name) || Shrinks(name, |name|) then NO_INDEX else Value(name, |name|) % TWO32
  {
    var isNumber := true;
    var k: nat := 0;
    while k < |name|
      invariant k <= |name| && (isNumber <==> forall j | 0 <= j < k :: IsDigit(name[j]))
    {
      if name[k] < 48 || name[k] > 57 {
        isNumber := false;
      }
      k := k + 1;
    }
    if |name| == 0 || (isNumber && |name| > 1 && name[0] == 48) {
      isNumber := false;
    }
    if !isNumber {
      return NO_INDEX;
    }
    var n: nat := 0;
    k := 0;
    while k < |name|
      invariant k <= |name| && n == Value(name, k) % TWO32 && !Shrinks(name, k)
    {
      var m := (n * 10 + (name[k] - 48)) % TWO32;
      NextValue(name, k);
      if m < n {
        return NO_INDEX;
      }
      n := m;
      k := k + 1;
    }
    return n;
  }

  lemma NextValue(name: Text, k: nat)
    requires IsNumber(name) && k < |name|
    ensures (Value(name, k) % TWO32 * 10 + (name[k] - 48)) % TWO32 == Value(name, k + 1) % TWO32
    ensures Shrinks(name, k + 1) <==> Shrinks(name, k) || Value(name, k + 1) % TWO32 < Value(name, k) % TWO32
  {
    var v := Value(name, k);
    assert 10 * v + (name[k] - 48) == (v % TWO32 * 10 + (name[k] - 48)) + 10 * (v / TWO32) * TWO32;
    Multiple(v % TWO32 * 10 + (name[k] - 48), 10 * (v / TWO32));
    if Shrinks(name, k + 1) {
      var j :| 0 < j <= k + 1 && Value(name, j) % TWO32 < Value(name, j - 1) % TWO32;
    }
  }

  lemma {:induction false} Multiple(a: nat, k: nat)
    ensures (a + k * TWO32) % TWO32 == a % TWO32
  {
    if k > 0 {
      Multiple(a, k - 1);
      assert a + k * TWO32 == a + (k - 1) * TWO32 + TWO32;
    }
  }

  /** The number as an index, or none when it is no index that can be told from none. */
  function RightIndex(name: Text): (r: nat) {
    if IsNumber(name) && Value(name, |name|) < NO_INDEX then Value(name, |name|) else NO_INDEX
  }

  lemma NothingShrinks(name: Text)
    requires IsNumber(name)
    ensures !Shrinks(name, 0)
  {
  }

  lemma Fits(v: nat)
    requires v < TWO32
    ensures v % TWO32 == v
  {
  }

  lemma {:induction false} ValueGrows(name: Text, k: nat)
    requires IsNumber(name) && k <= |name| && Value(name, k) < TWO32
    ensures !Shrinks(name, k)
  {
    hide Shrinks;
    if k == 0 {
      NothingShrinks(name);
    } else {
      assert Value(name, k - 1) <= Value(name, k);
      ValueGrows(name, k - 1);
      NextValue(name, k - 1);
      Fits(Value(name, k - 1));
      Fits(Value(name, k));
    }
    hide Value;
  }

  /**
    The index is the right one if and only if the number fits 32 bits, or it is noticed that it does not, or what is left of it
    happens to be the mark for no index.
   */
  lemma IndexExact(name: Text, index: nat)
    requires IsNumber(name) && index == if Shrinks(name, |name|) then NO_INDEX else Value(name, |name|) % TWO32
    ensures index == RightIndex(name) <==>
            Value(name, |name|) < 0x1_0000_0000 || Shrinks(name, |name|) || Value(name, |name|) % 0x1_0000_0000 == 0xFFFF_FFFF
  {
    if Value(name, |name|) < TWO32 { ValueGrows(name, |name|); }
  }

  /** The token 10000000000 gets the index 1410065408. */
  method WrongIndex() returns (index: nat)
    ensures index == 1410065408
  {
    hide Value, Shrinks;
    var name: Text := [49, 48, 48, 48, 48, 48, 48, 48, 48, 48, 48];
    TenBillions(name);
    ValueGrows(name, 10);
    NextValue(name, 10);
    index := ReadIndex(name);
  }

  lemma TenBillions(name: Text)
    requires name == [49, 48, 48, 48, 48, 48, 48, 48, 48, 48, 48]
    ensures IsNumber(name) && Value(name, 10) == 1_000_000_000 && Value(name, 11) == 10_000_000_000
  {
    assert Value(name, 1) == 1 && Value(name, 2) == 10 && Value(name, 3) == 100 && Value(name, 4) == 1000 && Value(name, 5) == 10000;
    assert Value(name, 6) == 100000 && Value(name, 7) == 1000000 && Value(name, 8) == 10000000 && Value(name, 9) == 100000000;
  }
}
