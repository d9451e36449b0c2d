/** Bytes and little-endian words, as the codecs read and write them on a 64-bit little-endian machine. */
module Bytes {

  type byte = b: int | 0 <= b < 256

  /** The value of the `n` bytes of `s` that start at `p`, least significant byte first. */
  function ReadLE(s: seq<byte>, p: nat, n: nat): (r: nat)
    requires p + n <= |s|
    decreases n
  {
    if n == 0 then 0 else s[p] + 256 * ReadLE(s, p + 1, n - 1)
  }

  /** The `n` low bytes of `v`, least significant byte first. */
  function WriteLE(v: nat, n: nat): (r: seq<byte>)
    ensures |r| == n
  {
    if n == 0 then [] else [v % 256] + WriteLE(v / 256, n - 1)
  }

  /** 256 to the power `n`. */
  function Pow256(n: nat): (r: nat)
    ensures r > 0
  {
    if n == 0 then 1 else 256 * Pow256(n - 1)
  }

  /** A word that fits its width is read back unchanged from wherever it was written. */
  lemma {:induction false} ReadWriteLE(v: nat, n: nat, s: seq<byte>, p: nat)
    requires v < Pow256(n)
    requires p + n <= |s| && s[p..p + n] == WriteLE(v, n)
    ensures ReadLE(s, p, n) == v
    decreases n
  {
    if n > 0 {
      assert s[p] == s[p..p + n][0];
      assert s[p + 1..p + n] == s[p..p + n][1..];
      ReadWriteLE(v / 256, n - 1, s, p + 1);
    }
  }

  /** Two words of the same width are equal exactly when their bytes are. */
  lemma {:induction false} ReadLEInjective(s: seq<byte>, p: nat, q: nat, n: nat)
    requires p + n <= |s| && q + n <= |s|
    ensures ReadLE(s, p, n) == ReadLE(s, q, n) <==> s[p..p + n] == s[q..q + n]
    decreases n
  {
    if n > 0 {
      ReadLEInjective(s, p + 1, q + 1, n - 1);
      LowByte(s[p], ReadLE(s, p + 1, n - 1));
      LowByte(s[q], ReadLE(s, q + 1, n - 1));
      assert s[p..p + n] == [s[p]] + s[p + 1..p + n];
      assert s[q..q + n] == [s[q]] + s[q + 1..q + n];
    }
  }

  /** A word of `n` bytes is below `Pow256(n)`. */
  lemma {:induction false} ReadLEBound(s: seq<byte>, p: nat, n: nat)
    requires p + n <= |s|
    ensures ReadLE(s, p, n) < Pow256(n)
    decreases n
  {
    if n > 0 {
      ReadLEBound(s, p + 1, n - 1);
    }
  }

  lemma LowByte(low: byte, high: nat)
    ensures (low + 256 * high) % 256 == low && (low + 256 * high) / 256 == high
  {
  }

  /** The bytes of a word are the ones that writing its value produces. */
  lemma {:induction false} ReadLECanonical(s: seq<byte>, p: nat, n: nat)
    requires p + n <= |s|
    ensures WriteLE(ReadLE(s, p, n), n) == s[p..p + n]
    decreases n
  {
    if n > 0 {
      ReadLECanonical(s, p + 1, n - 1);
      var high := ReadLE(s, p + 1, n - 1);
      LowByte(s[p], high);
      assert WriteLE(s[p] + 256 * high, n) == [s[p]] + WriteLE(high, n - 1);
      assert s[p..p + n] == [s[p]] + s[p + 1..p + n];
    }
  }

  lemma {:induction false} WriteLEZero(n: nat)
    ensures forall i | 0 <= i < n :: WriteLE(0, n)[i] == 0
  {
    if n > 0 {
      WriteLEZero(n - 1);
    }
  }

  lemma {:induction false} ReadLEPrefix(s: seq<byte>, end: nat, p: nat, n: nat)
    requires p + n <= end <= |s|
    ensures ReadLE(s[..end], p, n) == ReadLE(s, p, n)
    decreases n
  {
    if n > 0 {
      ReadLEPrefix(s, end, p + 1, n - 1);
    }
  }

  // ---------------------------------------------------------------------------------------------
  // Bytes within bytes
  // ---------------------------------------------------------------------------------------------

  /** `part` lies in `s` at position `i`. */
  ghost predicate At(s: seq<byte>, i: nat, part: seq<byte>) {
    i + |part| <= |s| && s[i..i + |part|] == part
  }

  lemma AtConcat(s: seq<byte>, i: nat, a: seq<byte>, b: seq<byte>)
    ensures At(s, i, a + b) <==> At(s, i, a) && At(s, i + |a|, b)
  {
    if At(s, i, a + b) {
      assert s[i..i + |a|] == (a + b)[..|a|];
      assert s[i + |a|..i + |a| + |b|] == (a + b)[|a|..];
    }
    if At(s, i, a) && At(s, i + |a|, b) {
      assert s[i..i + |a| + |b|] == s[i..i + |a|] + s[i + |a|..i + |a| + |b|];
    }
  }

  lemma AtByte(s: seq<byte>, i: nat, b: byte)
    ensures At(s, i, [b]) <==> i < |s| && s[i] == b
  {
    if i < |s| { assert s[i..i + 1] == [s[i]]; }
  }

  lemma AtIndex(s: seq<byte>, i: nat, part: seq<byte>, k: nat)
    requires At(s, i, part) && k < |part|
    ensures s[i + k] == part[k]
  {
    assert s[i + k] == s[i..i + |part|][k];
  }
}
