/**
  The id of a request as json_rpc.cpp reads it: a number, or a text that std::stoi makes a number of. The other ids count as
  0, which stands for null.
 */
module RequestId {
  import opened Wrappers
  import opened Numbers

  const TWO32 := 0x1_0000_0000

  datatype Id = Number(value: int) | Text(text: string) | OtherId

  predicate IsInt(n: int) {
    -0x8000_0000 <= n < 0x8000_0000
  }

  // ---------------------------------------------------------------------------------------------
  // std::stoi
  // ---------------------------------------------------------------------------------------------

  predicate IsBlank(c: char) {
    c == ' ' || '\t' <= c <= '\r'
  }

  predicate IsDigit(c: char) {
    '0' <= c <= '9'
  }

  predicate AllBlank(t: string) {
    forall c | c in t :: IsBlank(c)
  }

  predicate AllDigits(t: string) {
    forall c | c in t :: IsDigit(c)
  }

  /** How many blanks the text begins with. */
  function Blanks(t: string): (n: nat)
    ensures n <= |t| && AllBlank(t[..n]) && (n < |t| ==> !IsBlank(t[n]))
  {
    if t == [] || !IsBlank(t[0]) then 0
    else
      assert forall n: nat | n < |t| :: t[..n + 1] == [t[0]] + t[1..][..n];
      1 + Blanks(t[1..])
  }

  /** How many digits the text begins with. */
  function Digits(t: string): (n: nat)
    ensures n <= |t| && AllDigits(t[..n]) && (n < |t| ==> !IsDigit(t[n]))
  {
    if t == [] || !IsDigit(t[0]) then 0
    else
      assert forall n: nat | n < |t| :: t[..n + 1] == [t[0]] + t[1..][..n];
      1 + Digits(t[1..])
  }

  function Decimal(digits: string): (n: int) {
    if digits == [] then 0
    else 10 * Decimal(digits[..|digits| - 1]) + (digits[|digits| - 1] as int - '0' as int)
  }

  /** The number after blanks and a sign, whatever follows it. It throws when there is none or it is no int. */
  function Stoi(t: string): (r: Option<int>) {
    Signed(t[Blanks(t)..])
  }

  function Signed(s: string): (r: Option<int>) {
    var signed := s != [] && (s[0] == '+' || s[0] == '-');
    var u := if signed then s[1..] else s;
    var digits := u[..Digits(u)];
    var n := if signed && s[0] == '-' then -Decimal(digits) else Decimal(digits);
    if digits != [] && IsInt(n) then Some(n) else None
  }

  /** The text is made of blanks, a sign, digits and what follows them, and the sign and the digits are that number. */
  ghost predicate Spells(t: string, blanks: string, sign: string, digits: string, rest: string, n: int) {
    && t == blanks + sign + digits + rest
    && AllBlank(blanks) && (sign == "" || sign == "+" || sign == "-") && digits != "" && AllDigits(digits)
    && (rest != "" ==> !IsDigit(rest[0]))
    && n == if sign == "-" then -Decimal(digits) else Decimal(digits)
  }

  /** As many blanks as there are in front of something else. */
  lemma {:induction false} BlanksOf(blanks: string, rest: string)
    requires AllBlank(blanks) && (rest != "" ==> !IsBlank(rest[0]))
    ensures Blanks(blanks + rest) == |blanks|
  {
    if blanks != "" {
      assert (blanks + rest)[1..] == blanks[1..] + rest;
      BlanksOf(blanks[1..], rest);
    }
  }

  lemma {:induction false} DigitsOf(digits: string, rest: string)
    requires AllDigits(digits) && (rest != "" ==> !IsDigit(rest[0]))
    ensures Digits(digits + rest) == |digits|
  {
    if digits != "" {
      assert (digits + rest)[1..] == digits[1..] + rest;
      DigitsOf(digits[1..], rest);
    }
  }

  lemma SignedIsRead(sign: string, digits: string, rest: string)
    requires (sign == "" || sign == "+" || sign == "-") && digits != "" && AllDigits(digits) && (rest != "" ==> !IsDigit(rest[0]))
    ensures var n := if sign == "-" then -Decimal(digits) else Decimal(digits);
            Signed(sign + (digits + rest)) == if IsInt(n) then Some(n) else None
  {
    hide Digits, Decimal, IsInt;
    var u := digits + rest;
    var s := sign + u;
    assert digits[0] in digits;
    assert s[|sign|..] == u && s[0] == (if sign == "" then digits[0] else sign[0]);
    DigitsOf(digits, rest);
    assert u[..|digits|] == digits;
  }

  lemma SpelledIsRead(t: string, blanks: string, sign: string, digits: string, rest: string, n: int)
    requires Spells(t, blanks, sign, digits, rest, n)
    ensures Stoi(t) == if IsInt(n) then Some(n) else None
  {
    hide Blanks, Signed, Decimal, IsInt;
    var s := sign + (digits + rest);
    assert digits[0] in digits;
    assert t == blanks + s && s[0] == (if sign == "" then digits[0] else sign[0]);
    BlanksOf(blanks, s);
    assert t[|blanks|..] == s;
    SignedIsRead(sign, digits, rest);
  }

  lemma SignedIsSpelled(s: string, n: int) returns (sign: string, digits: string, rest: string)
    requires Signed(s) == Some(n)
    ensures s == sign + (digits + rest) && (sign == "" || sign == "+" || sign == "-") && digits != "" && AllDigits(digits)
    ensures (rest != "" ==> !IsDigit(rest[0])) && n == if sign == "-" then -Decimal(digits) else Decimal(digits)
  {
    hide Decimal, Digits, IsDigit, IsInt;
    var signed := s != [] && (s[0] == '+' || s[0] == '-');
    sign := if signed then s[..1] else "";
    var u := if signed then s[1..] else s;
    digits, rest := u[..Digits(u)], u[Digits(u)..];
    assert u == digits + rest;
  }

  lemma ReadIsSpelled(t: string, n: int) returns (blanks: string, sign: string, digits: string, rest: string)
    requires Stoi(t) == Some(n)
    ensures Spells(t, blanks, sign, digits, rest, n)
  {
    hide Decimal, Blanks, Signed, IsBlank, IsDigit;
    blanks := t[..Blanks(t)];
    var s := t[Blanks(t)..];
    sign, digits, rest := SignedIsSpelled(s, n);
    Joined(t, blanks, sign, digits, rest, s);
  }

  lemma Joined(t: string, a: string, b: string, c: string, d: string, s: string)
    requires t == a + s && s == b + (c + d)
    ensures t == a + b + c + d
  {
  }

  /** The number of a text is the int that it spells, and there is none exactly when it spells no int. */
  lemma StoiExact(t: string, n: int)
    ensures Stoi(t) == Some(n) <==> IsInt(n) && exists blanks, sign, digits, rest :: Spells(t, blanks, sign, digits, rest, n)
  {
    hide Stoi, Spells;
    if Stoi(t) == Some(n) {
      var blanks, sign, digits, rest := ReadIsSpelled(t, n);
      StoiIsInt(t);
    }
    forall blanks, sign, digits, rest | IsInt(n) && Spells(t, blanks, sign, digits, rest, n) ensures Stoi(t) == Some(n) {
      SpelledIsRead(t, blanks, sign, digits, rest, n);
    }
  }

  lemma StoiIsInt(t: string)
    ensures Stoi(t).Some? ==> IsInt(Stoi(t).value)
  {
    hide Blanks, Digits, Decimal;
  }

  // ---------------------------------------------------------------------------------------------
  // get_id
  // ---------------------------------------------------------------------------------------------

  /** get_id: the number in 32 bits without sign, or nothing when std::stoi throws. */
  function GetId(id: Id): (r: Option<nat>)
    ensures r.Some? ==> r.value < TWO32
    ensures r.None? <==> id.Text? && Stoi(id.text).None?
  {
    match id
    case Number(n) => Some(if IsInt(n) || 0 <= n < TWO32 then n % TWO32 else 0)
    case Text(t) => (match Stoi(t) case Some(n) => Some(n % TWO32) case None => None)
    case OtherId => Some(0)
  }

  function Nines(n: nat): (t: string)
    ensures |t| == n && AllDigits(t)
  {
    if n == 0 then "" else Nines(n - 1) + "9"
  }

  lemma {:induction false} NinesDecimal(n: nat)
    ensures Decimal(Nines(n)) == PowerOfTen(n) - 1
  {
    if n > 0 {
      NinesDecimal(n - 1);
      assert Nines(n)[..n - 1] == Nines(n - 1);
    }
  }

  /** Ten digits, which the schema of requests admits, that are no int. */
  lemma TenNines()
    ensures Stoi("9999999999").None?
  {
    var t := "9999999999";
    assert t == Nines(10);
    NinesDecimal(10);
    assert PowerOfTen(10) == 10_000_000_000;
    SpelledIsRead(t, "", "", t, "", Decimal(t));
  }
}
