/** UTF-8 (RFC 3629) as encodings.h writes, reads and checks it. */
module Utf8 {
  import opened Bytes

  /** A Unicode scalar value. */
  predicate IsScalar(codepoint: nat) {
    codepoint <= 0x10FFFF && !(0xD800 <= codepoint <= 0xDFFF)
  }

  /** UTF8::Encode: the bytes of a code point. Surrogates are not excluded. */
  function Encode(codepoint: nat): (r: seq<byte>)
    requires codepoint <= 0x10FFFF
    ensures 1 <= |r| <= 4
  {
    if codepoint <= 0x7F then [codepoint]
    else if codepoint <= 0x7FF then [0xC0 + codepoint / 64, 0x80 + codepoint % 64]
    else if codepoint <= 0xFFFF then [0xE0 + codepoint / 4096, 0x80 + codepoint / 64 % 64, 0x80 + codepoint % 64]
    else [0xF0 + codepoint / 262144, 0x80 + codepoint / 4096 % 64, 0x80 + codepoint / 64 % 64, 0x80 + codepoint % 64]
  }

  /** GetRange: the type of a byte, which says where it may stand. */
  function GetRange(c: byte): (t: nat) {
    if c < 0x80 then 0
    else if c < 0x90 then 0x10
    else if c < 0xA0 then 0x40
    else if c < 0xC0 then 0x20
    else if c < 0xC2 then 8
    else if c < 0xE0 then 2
    else if c == 0xE0 then 10
    else if c == 0xED then 4
    else if c < 0xF0 then 3
    else if c == 0xF0 then 11
    else if c < 0xF4 then 6
    else if c == 0xF4 then 5
    else 8
  }

  /** The types of continuation bytes that a mask lets through. */
  datatype Mask = Any | UpTo9F | UpTo8F | FromA0 | From90

  /** GetRange(c) & mask is not zero. */
  predicate Meets(c: byte, m: Mask) {
    var t := GetRange(c);
    match m
    case Any => t == 0x10 || t == 0x20 || t == 0x40 // 0x70
    case UpTo9F => t == 0x10 || t == 0x40           // 0x50
    case UpTo8F => t == 0x10                        // 0x10
    case FromA0 => t == 0x20                        // 0x20
    case From90 => t == 0x20 || t == 0x40           // 0x60
  }

  /** What must follow a byte of that type, or false when nothing makes it valid. */
  function Tails(t: nat): (r: (bool, seq<Mask>))
    ensures |r.1| <= 3
  {
    if t == 0 then (true, [])
    else if t == 2 then (true, [Any])
    else if t == 3 then (true, [Any, Any])
    else if t == 4 then (true, [UpTo9F, Any])
    else if t == 5 then (true, [UpTo8F, Any, Any])
    else if t == 6 then (true, [Any, Any, Any])
    else if t == 10 then (true, [FromA0, Any])
    else if t == 11 then (true, [From90, Any, Any])
    else (false, [])
  }

  /** The bytes from `i` on meet the masks. */
  predicate Follow(s: seq<byte>, i: nat, masks: seq<Mask>)
    decreases |masks|
  {
    masks == [] || (i < |s| && Meets(s[i], masks[0]) && Follow(s, i + 1, masks[1..]))
  }

  /** How many bytes the character whose first byte is `c` takes. */
  function Width(c: byte): (n: nat)
    ensures 1 <= n <= 4
  {
    1 + |Tails(GetRange(c)).1|
  }

  /** UTF8::Validate: a valid character begins at `i`. */
  predicate Validate(s: seq<byte>, i: nat)
    ensures Validate(s, i) ==> i < |s|
  {
    i < |s| && Tails(GetRange(s[i])).0 && Follow(s, i + 1, Tails(GetRange(s[i])).1)
  }

  /** The bits of the first byte that belong to the code point. */
  function Lead(c: byte): (v: nat) {
    var t := GetRange(c);
    if t == 0 then c
    else if t == 2 then c % 64
    else if t == 3 then c % 32
    else if t == 4 then c % 16
    else if t == 5 then c % 8
    else if t == 6 then c % 4
    else 0
  }

  /** UTF8::Decode: the code point of the n bytes from `i` on, `acc` being that of the bytes before. */
  function Gather(s: seq<byte>, i: nat, n: nat, acc: nat): (v: nat)
    requires i + n <= |s|
    decreases n
  {
    if n == 0 then acc else Gather(s, i + 1, n - 1, acc * 64 + s[i] % 64)
  }

  function Decode(s: seq<byte>, i: nat): (v: nat)
    requires i < |s| && i + Width(s[i]) <= |s|
  {
    Gather(s, i + 1, Width(s[i]) - 1, Lead(s[i]))
  }

  lemma {:induction false} FollowFits(s: seq<byte>, i: nat, masks: seq<Mask>)
    requires Follow(s, i, masks) && i <= |s|
    ensures i + |masks| <= |s|
    decreases |masks|
  {
    if masks != [] { FollowFits(s, i + 1, masks[1..]); }
  }

  lemma ValidFits(s: seq<byte>, i: nat)
    requires Validate(s, i)
    ensures i + Width(s[i]) <= |s|
  {
    FollowFits(s, i + 1, Tails(GetRange(s[i])).1);
  }

  lemma FollowOne(s: seq<byte>, i: nat, a: Mask)
    ensures Follow(s, i, [a]) <==> i < |s| && Meets(s[i], a)
  {
    assert [a][1..] == [];
  }

  lemma FollowTwo(s: seq<byte>, i: nat, a: Mask, b: Mask)
    ensures Follow(s, i, [a, b]) <==> i + 1 < |s| && Meets(s[i], a) && Meets(s[i + 1], b)
  {
    assert [a, b][1..] == [b];
    FollowOne(s, i + 1, b);
  }

  lemma FollowThree(s: seq<byte>, i: nat, a: Mask, b: Mask, c: Mask)
    ensures Follow(s, i, [a, b, c]) <==> i + 2 < |s| && Meets(s[i], a) && Meets(s[i + 1], b) && Meets(s[i + 2], c)
  {
    assert [a, b, c][1..] == [b, c];
    FollowTwo(s, i + 1, b, c);
  }

  /** What Validate accepts, by the length of the character. */
  lemma ValidateCases(s: seq<byte>, i: nat)
    requires i < |s|
    ensures var (ok, m) := Tails(GetRange(s[i]));
            Validate(s, i) <==>
              (&& ok
               && (|m| >= 1 ==> i + 1 < |s| && Meets(s[i + 1], m[0]))
               && (|m| >= 2 ==> i + 2 < |s| && Meets(s[i + 2], m[1]))
               && (|m| >= 3 ==> i + 3 < |s| && Meets(s[i + 3], m[2])))
  {
    var (ok, m) := Tails(GetRange(s[i]));
    hide Follow, Meets, GetRange, Tails;
    if |m| == 0 {
      FollowNone(s, i + 1);
    } else if |m| == 1 {
      assert m == [m[0]];
      FollowOne(s, i + 1, m[0]);
    } else if |m| == 2 {
      assert m == [m[0], m[1]];
      FollowTwo(s, i + 1, m[0], m[1]);
    } else {
      assert m == [m[0], m[1], m[2]];
      FollowThree(s, i + 1, m[0], m[1], m[2]);
    }
  }

  lemma FollowNone(s: seq<byte>, i: nat)
    ensures Follow(s, i, [])
  {
  }

  /** The code point of a character, by its length. */
  lemma DecodeCases(s: seq<byte>, i: nat)
    requires i < |s| && i + Width(s[i]) <= |s|
    ensures var n, v := Width(s[i]), Lead(s[i]);
            Decode(s, i) ==
            if n == 1 then v
            else if n == 2 then v * 64 + s[i + 1] % 64
            else if n == 3 then (v * 64 + s[i + 1] % 64) * 64 + s[i + 2] % 64
            else ((v * 64 + s[i + 1] % 64) * 64 + s[i + 2] % 64) * 64 + s[i + 3] % 64
  {
    var n, v := Width(s[i]), Lead(s[i]);
    hide Width, Lead;
    if n == 1 {
      assert Gather(s, i + 1, 0, v) == v;
    } else if n == 2 {
      assert Gather(s, i + 1, 1, v) == Gather(s, i + 2, 0, v * 64 + s[i + 1] % 64);
    } else if n == 3 {
      assert Gather(s, i + 1, 2, v) == Gather(s, i + 2, 1, v * 64 + s[i + 1] % 64);
    } else {
      assert Gather(s, i + 1, 3, v) == Gather(s, i + 2, 2, v * 64 + s[i + 1] % 64);
      assert Gather(s, i + 2, 2, v * 64 + s[i + 1] % 64) == Gather(s, i + 3, 1, (v * 64 + s[i + 1] % 64) * 64 + s[i + 2] % 64);
    }
  }

  /** The encoding of a scalar value is valid and decodes to it. */
  lemma DecodeEncode(v: nat)
    requires IsScalar(v)
    ensures Validate(Encode(v), 0) && Width(Encode(v)[0]) == |Encode(v)| && Decode(Encode(v), 0) == v
  {
    hide Validate, Decode, Width, Lead;
    EncodedIsValid(v);
    DecodeCases(Encode(v), 0);
    LeadOf(v);
    TailsOf(v);
    Digits64(v);
    hide Encode;
  }

  /** The continuation bytes of a code point. */
  lemma TailsOf(v: nat)
    requires v <= 0x10FFFF
    ensures var e := Encode(v);
            && (0x80 <= v < 0x800 ==> |e| == 2 && e[1] % 64 == v % 64)
            && (0x800 <= v < 0x10000 ==> |e| == 3 && e[1] % 64 == v / 64 % 64 && e[2] % 64 == v % 64)
            && (0x10000 <= v ==> |e| == 4 && e[1] % 64 == v / 4096 % 64 && e[2] % 64 == v / 64 % 64 && e[3] % 64 == v % 64)
            && (v < 0x80 ==> |e| == 1)
  {
    Low6(v % 64);
    Low6(v / 64 % 64);
    Low6(v / 4096 % 64);
  }

  lemma Low6(x: nat)
    requires x < 64
    ensures (0x80 + x) % 64 == x
  {
  }

  lemma LeadOf(v: nat)
    requires IsScalar(v)
    ensures Lead(Encode(v)[0]) == if v < 0x80 then v else if v < 0x800 then v / 64 else if v < 0x10000 then v / 4096 else v / 262144
  {
  }

  lemma Digits64(v: nat)
    ensures v == (v / 4096 * 64 + v / 64 % 64) * 64 + v % 64
    ensures v / 4096 == v / 262144 * 64 + v / 4096 % 64
  {
  }

  lemma EncodedIsValid(v: nat)
    requires IsScalar(v)
    ensures Validate(Encode(v), 0) && Width(Encode(v)[0]) == |Encode(v)|
  {
    ValidateCases(Encode(v), 0);
    hide Follow, Validate;
  }

  /** What is accepted is the encoding of a scalar value: nothing overlong, no surrogate, nothing above 0x10FFFF. */
  lemma EncodeDecode(s: seq<byte>, i: nat)
    requires Validate(s, i)
    ensures i + Width(s[i]) <= |s| && IsScalar(Decode(s, i)) && Encode(Decode(s, i)) == s[i..i + Width(s[i])]
  {
    hide Follow, Validate, Decode, Encode, Lead, Meets, GetRange, Tails, IsScalar;
    ValidFits(s, i);
    ValidateCases(s, i);
    DecodeCases(s, i);
    var n := Width(s[i]);
    Slice(s, i, n);
    if n == 1 {
      One(s[i]);
    } else if n == 2 {
      Two(s[i], s[i + 1]);
    } else if n == 3 {
      Three(s[i], s[i + 1], s[i + 2]);
    } else {
      Four(s[i], s[i + 1], s[i + 2], s[i + 3]);
    }
  }

  lemma Slice(s: seq<byte>, i: nat, n: nat)
    requires 1 <= n <= 4 && i + n <= |s|
    ensures s[i..i + n] == if n == 1 then [s[i]] else if n == 2 then [s[i], s[i + 1]] else if n == 3 then [s[i], s[i + 1], s[i + 2]]
                           else [s[i], s[i + 1], s[i + 2], s[i + 3]]
  {
  }

  lemma One(a: byte)
    requires Tails(GetRange(a)) == (true, [])
    ensures IsScalar(Lead(a)) && Encode(Lead(a)) == [a]
  {
  }

  lemma Two(a: byte, b: byte)
    requires var (ok, m) := Tails(GetRange(a)); ok && |m| == 1 && Meets(b, m[0])
    ensures var v := Lead(a) * 64 + b % 64; IsScalar(v) && Encode(v) == [a, b]
  {
  }

  lemma Three(a: byte, b: byte, c: byte)
    requires var (ok, m) := Tails(GetRange(a)); ok && |m| == 2 && Meets(b, m[0]) && Meets(c, m[1])
    ensures var v := (Lead(a) * 64 + b % 64) * 64 + c % 64; IsScalar(v) && Encode(v) == [a, b, c]
  {
    var v := (Lead(a) * 64 + b % 64) * 64 + c % 64;
    assert Lead(a) == a - 0xE0 && b % 64 == b - 0x80 && c % 64 == c - 0x80;
    assert v / 64 == Lead(a) * 64 + b % 64;
  }

  lemma Four(a: byte, b: byte, c: byte, d: byte)
    requires var (ok, m) := Tails(GetRange(a)); ok && |m| == 3 && Meets(b, m[0]) && Meets(c, m[1]) && Meets(d, m[2])
    ensures var v := ((Lead(a) * 64 + b % 64) * 64 + c % 64) * 64 + d % 64; IsScalar(v) && Encode(v) == [a, b, c, d]
  {
    var v := ((Lead(a) * 64 + b % 64) * 64 + c % 64) * 64 + d % 64;
    FourRange(a, b, c, d);
    hide Lead, GetRange, Tails, Meets;
    Pack4(a - 0xF0, b - 0x80, c - 0x80, d - 0x80);
  }

  lemma FourRange(a: byte, b: byte, c: byte, d: byte)
    requires var (ok, m) := Tails(GetRange(a)); ok && |m| == 3 && Meets(b, m[0]) && Meets(c, m[1]) && Meets(d, m[2])
    ensures Lead(a) == a - 0xF0 && b % 64 == b - 0x80 && c % 64 == c - 0x80 && d % 64 == d - 0x80
    ensures 0x10 <= (a - 0xF0) * 64 + (b - 0x80) < 0x110 && 0x80 <= c < 0xC0 && 0x80 <= d < 0xC0 && 0x80 <= b < 0xC0
  {
  }

  lemma Pack4(x: nat, y: nat, z: nat, w: nat)
    requires y < 64 && z < 64 && w < 64
    ensures var v := ((x * 64 + y) * 64 + z) * 64 + w;
            v / 262144 == x && v / 4096 % 64 == y && v / 64 % 64 == z && v % 64 == w
  {
    var v := ((x * 64 + y) * 64 + z) * 64 + w;
    assert v / 64 == (x * 64 + y) * 64 + z;
    assert v / 4096 == x * 64 + y;
  }
}
