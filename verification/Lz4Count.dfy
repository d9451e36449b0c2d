/** Match lengths counted a machine word at a time (LZ4_count and LZ4_NbCommonBytes on a 64-bit little-endian machine). */
module Lz4Count {
  import opened Bytes

  const STEPSIZE := 8

  // ---------------------------------------------------------------------------------------------
  // Words
  // ---------------------------------------------------------------------------------------------

  /** Bitwise exclusive or of two words. */
  function Xor(a: nat, b: nat): (r: nat)
  {
    if a == 0 && b == 0 then 0
    else (a + b) % 2 + 2 * Xor(a / 2, b / 2)
  }

  /** The number of trailing zero bits of a word that is not zero. */
  function TrailingZeros(v: nat): (r: nat)
    requires v > 0
  {
    if v % 2 == 1 then 0 else 1 + TrailingZeros(v / 2)
  }

  /** The number of zero bytes at the low end of a word, from its trailing zero bits. */
  function NbCommonBytes(v: nat): (r: nat)
    requires v > 0
  {
    TrailingZeros(v) / 8
  }

  lemma {:induction false} XorZero(a: nat, b: nat)
    ensures Xor(a, b) == 0 <==> a == b
    decreases a + b
  {
    if a != 0 || b != 0 {
      XorZero(a / 2, b / 2);
    }
  }

  function Pow2(n: nat): (r: nat) {
    if n == 0 then 1 else 2 * Pow2(n - 1)
  }

  /** `h` moved `bits` places to the left. */
  function Shift(h: nat, bits: nat): (r: nat) {
    if bits == 0 then h else 2 * Shift(h, bits - 1)
  }

  lemma ShiftByte(h: nat)
    ensures Shift(h, 8) == 256 * h && Pow2(8) == 256
  {
    assert Shift(h, 1) == 2 * h;
    assert Shift(h, 3) == 4 * Shift(h, 1);
    assert Shift(h, 5) == 4 * Shift(h, 3);
    assert Shift(h, 7) == 4 * Shift(h, 5);
  }

  lemma XorUnfold(a: nat, b: nat)
    ensures Xor(a, b) == (a + b) % 2 + 2 * Xor(a / 2, b / 2)
  {
  }

  lemma TrailingZerosUnfold(bit: nat, w: nat)
    requires bit < 2 && bit + 2 * w > 0
    ensures TrailingZeros(bit + 2 * w) == if bit == 1 then 0 else 1 + TrailingZeros(w)
  {
    assert (bit + 2 * w) % 2 == bit && (bit + 2 * w) / 2 == w;
  }

  /** The lowest bit at which two words differ, one bit at a time. */
  lemma TrailingZerosStep(a: nat, b: nat)
    requires a != b
    ensures Xor(a, b) > 0
    ensures a % 2 == b % 2 ==> Xor(a / 2, b / 2) > 0 && TrailingZeros(Xor(a, b)) == 1 + TrailingZeros(Xor(a / 2, b / 2))
    ensures a % 2 != b % 2 ==> TrailingZeros(Xor(a, b)) == 0
  {
    hide Xor, TrailingZeros;
    XorZero(a, b);
    XorZero(a / 2, b / 2);
    XorUnfold(a, b);
    assert a % 2 == b % 2 <==> (a + b) % 2 == 0;
    TrailingZerosUnfold((a + b) % 2, Xor(a / 2, b / 2));
  }

  /**
    Words with low parts `x` and `y` of `bits` bits: when the low parts agree their exclusive or has `bits`
    more trailing zeros than that of the high parts, otherwise it has fewer than `bits`.
   */
  lemma {:induction false} TrailingZerosOfParts(x: nat, y: nat, h: nat, g: nat, bits: nat)
    requires x < Pow2(bits) && y < Pow2(bits)
    requires x + Shift(h, bits) != y + Shift(g, bits)
    ensures Xor(x + Shift(h, bits), y + Shift(g, bits)) > 0
    ensures x == y ==> Xor(h, g) > 0
    ensures x == y ==> TrailingZeros(Xor(x + Shift(h, bits), y + Shift(g, bits))) == bits + TrailingZeros(Xor(h, g))
    ensures x != y ==> TrailingZeros(Xor(x + Shift(h, bits), y + Shift(g, bits))) < bits
    decreases bits
  {
    hide Xor, TrailingZeros;
    var a, b := x + Shift(h, bits), y + Shift(g, bits);
    TrailingZerosStep(a, b);
    if bits > 0 {
      assert a / 2 == x / 2 + Shift(h, bits - 1) && b / 2 == y / 2 + Shift(g, bits - 1);
      assert a % 2 == x % 2 && b % 2 == y % 2;
      if x % 2 == y % 2 {
        TrailingZerosOfParts(x / 2, y / 2, h, g, bits - 1);
      }
    }
  }

  // ---------------------------------------------------------------------------------------------
  // Common prefixes
  // ---------------------------------------------------------------------------------------------

  /** Each byte of s[from..to] equals the one `distance` before it. */
  ghost predicate Repeats(s: seq<byte>, from: nat, to: nat, distance: nat)
    requires distance <= from && to <= |s|
  {
    forall k | from <= k < to :: s[k] == s[k - distance]
  }

  /** The bytes from `start` on agree with those `distance` before them for exactly `n` bytes, or up to `limit`. */
  ghost predicate IsMatchLength(s: seq<byte>, start: nat, distance: nat, limit: nat, n: nat)
    requires distance <= start <= limit <= |s|
  {
    && start + n <= limit
    && Repeats(s, start, start + n, distance)
    && (start + n < limit ==> s[start + n] != s[start + n - distance])
  }

  /** The bytes from `q` on first differ from those `distance` before them after `m` bytes. */
  ghost predicate FirstDifference(s: seq<byte>, q: nat, distance: nat, m: nat)
    requires distance <= q
  {
    q + m < |s| && Repeats(s, q, q + m, distance) && s[q + m] != s[q + m - distance]
  }

  /** For words that differ, the byte count is the number of leading equal bytes. */
  lemma {:induction false} NbCommonBytesIsPrefix(s: seq<byte>, q: nat, distance: nat, n: nat)
    requires distance <= q && q + n <= |s| && ReadLE(s, q - distance, n) != ReadLE(s, q, n)
    ensures var v := Xor(ReadLE(s, q - distance, n), ReadLE(s, q, n));
            v > 0 && NbCommonBytes(v) < n && FirstDifference(s, q, distance, NbCommonBytes(v))
    decreases n
  {
    hide ReadLE, FirstDifference, NbCommonBytes, Xor;
    var p := q - distance;
    ReadLEUnfold(s, p, n);
    ReadLEUnfold(s, q, n);
    var h, g := ReadLE(s, p + 1, n - 1), ReadLE(s, q + 1, n - 1);
    NbCommonBytesStep(s[p], s[q], h, g);
    if s[p] == s[q] {
      NbCommonBytesIsPrefix(s, q + 1, distance, n - 1);
      FirstDifferenceStep(s, q, distance, NbCommonBytes(Xor(h, g)));
    } else {
      FirstDifferenceHere(s, q, distance);
    }
  }

  lemma FirstDifferenceStep(s: seq<byte>, q: nat, distance: nat, m: nat)
    requires distance <= q < |s| && s[q] == s[q - distance] && FirstDifference(s, q + 1, distance, m)
    ensures FirstDifference(s, q, distance, 1 + m)
  {
  }

  lemma FirstDifferenceHere(s: seq<byte>, q: nat, distance: nat)
    requires distance <= q < |s| && s[q] != s[q - distance]
    ensures FirstDifference(s, q, distance, 0)
  {
  }

  lemma ReadLEUnfold(s: seq<byte>, p: nat, n: nat)
    requires p + n <= |s|
    ensures n == 0 ==> ReadLE(s, p, n) == 0
    ensures n > 0 ==> ReadLE(s, p, n) == s[p] + 256 * ReadLE(s, p + 1, n - 1)
  {
  }

  /** The byte count, one byte at a time. */
  lemma NbCommonBytesStep(x: byte, y: byte, h: nat, g: nat)
    requires x + 256 * h != y + 256 * g
    ensures var v := Xor(x + 256 * h, y + 256 * g);
            v > 0 && (if x == y then Xor(h, g) > 0 && NbCommonBytes(v) == 1 + NbCommonBytes(Xor(h, g)) else NbCommonBytes(v) == 0)
  {
    hide Xor, TrailingZeros, Shift, Pow2;
    ShiftByte(h);
    ShiftByte(g);
    TrailingZerosOfParts(x, y, h, g, 8);
  }

  lemma RepeatsSplit(s: seq<byte>, from: nat, mid: nat, to: nat, distance: nat)
    requires distance <= from <= mid <= to <= |s|
    ensures Repeats(s, from, to, distance) <==> Repeats(s, from, mid, distance) && Repeats(s, mid, to, distance)
  {
  }

  lemma RepeatsOne(s: seq<byte>, k: nat, distance: nat)
    requires distance <= k < |s|
    ensures Repeats(s, k, k + 1, distance) <==> s[k] == s[k - distance]
  {
  }

  lemma SameWord(s: seq<byte>, q: nat, distance: nat, n: nat)
    requires distance <= q && q + n <= |s|
    ensures ReadLE(s, q - distance, n) == ReadLE(s, q, n) <==> Repeats(s, q, q + n, distance)
  {
    var p := q - distance;
    ReadLEInjective(s, p, q, n);
    if s[p..p + n] == s[q..q + n] {
      forall k | q <= k < q + n ensures s[k] == s[k - distance] {
        assert s[p..p + n][k - q] == s[q..q + n][k - q];
      }
    }
    if Repeats(s, q, q + n, distance) {
      var a, b := s[p..p + n], s[q..q + n];
      forall i | 0 <= i < n ensures a[i] == b[i] {
        assert s[q + i] == s[q + i - distance];
      }
    }
  }

  /** Counts, 8 bytes at a time and then 4, 2 and 1, how far the bytes at `start` agree with those at `match_` before `limit`. */
  method Count(s: seq<byte>, start: nat, match_: nat, limit: nat) returns (n: nat)
    requires match_ <= start <= limit <= |s|
    ensures IsMatchLength(s, start, start - match_, limit, n)
  {
    hide Xor, TrailingZeros, ReadLE;
    ghost var distance := start - match_;
    var pIn, pMatch := start, match_;
    while pIn < limit - (STEPSIZE - 1)
      invariant start <= pIn <= limit && pMatch == pIn - distance
      invariant Repeats(s, start, pIn, distance)
    {
      var diff := Xor(ReadLE(s, pMatch, 8), ReadLE(s, pIn, 8));
      XorZero(ReadLE(s, pMatch, 8), ReadLE(s, pIn, 8));
      SameWord(s, pIn, distance, 8);
      if diff == 0 {
        pIn, pMatch := pIn + STEPSIZE, pMatch + STEPSIZE;
      } else {
        NbCommonBytesIsPrefix(s, pIn, distance, 8);
        pIn := pIn + NbCommonBytes(diff);
        return pIn - start;
      }
    }
    n := CountTail(s, start, pIn, pMatch, limit);
  }

  /** The last fewer than 8 bytes of Count. */
  method CountTail(s: seq<byte>, start: nat, pIn0: nat, pMatch0: nat, limit: nat) returns (n: nat)
    requires pMatch0 <= pIn0 && start <= pIn0 <= limit <= |s| && limit < pIn0 + STEPSIZE
    requires pIn0 - pMatch0 <= start && Repeats(s, start, pIn0, pIn0 - pMatch0)
    ensures IsMatchLength(s, start, pIn0 - pMatch0, limit, n)
  {
    hide Repeats;
    ghost var distance := pIn0 - pMatch0;
    var pIn, pMatch := CountWord(s, pIn0, pMatch0, limit, 4);
    ghost var p4 := pIn;
    RepeatsSplit(s, start, pIn0, p4, distance);
    if p4 + 4 <= limit { RepeatsSplit(s, p4, p4 + 2, p4 + 4, distance); }
    pIn, pMatch := CountWord(s, pIn, pMatch, limit, 2);
    ghost var p2 := pIn;
    RepeatsSplit(s, start, p4, p2, distance);
    if p2 + 2 <= limit { RepeatsSplit(s, p2, p2 + 1, p2 + 2, distance); }
    if pIn < limit {
      RepeatsOne(s, p2, distance);
      if s[pMatch] == s[pIn] { pIn := pIn + 1; }
      if pIn < limit { RepeatsOne(s, pIn, distance); }
    }
    RepeatsSplit(s, start, p2, pIn, distance);
    n := pIn - start;
  }

  /** Moves past one word of `n` bytes when it lies before the limit and agrees. */
  method CountWord(s: seq<byte>, pIn: nat, pMatch: nat, limit: nat, n: nat) returns (pIn': nat, pMatch': nat)
    requires pMatch <= pIn <= limit <= |s| && n > 0
    ensures pIn' - pMatch' == pIn - pMatch
    ensures pIn' == if pIn + n <= limit && Repeats(s, pIn, pIn + n, pIn - pMatch) then pIn + n else pIn
    ensures Repeats(s, pIn, pIn', pIn - pMatch)
  {
    hide ReadLE;
    pIn', pMatch' := pIn, pMatch;
    if pIn < limit - (n - 1) {
      SameWord(s, pIn, pIn - pMatch, n);
      if ReadLE(s, pMatch, n) == ReadLE(s, pIn, n) { pIn', pMatch' := pIn + n, pMatch + n; }
    }
  }
}
