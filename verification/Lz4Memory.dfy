/** The memory routines of lz4.c over an output array: exact copies, wild copies that overshoot, and word stores. */
module Lz4Memory {
  import opened Bytes

  /** The number of bytes a wild copy of `length` bytes writes: whole steps of 8, and at least one. */
  function WildLength(length: int): (n: nat)
    ensures n >= 8 && n >= length && (n == 8 || n < length + 8)
  {
    if length <= 8 then 8 else 8 * ((length + 7) / 8)
  }

  /** All bytes of `a` outside [from, to) are as they were in `before`. */
  ghost predicate SameOutside(a: array<byte>, before: seq<byte>, from: int, to: int)
    reads a
  {
    |before| == a.Length && forall k | 0 <= k < a.Length && !(from <= k < to) :: a[k] == before[k]
  }

  /** Bytes [from, to) of `a` are those of `src` shifted by `delta`. */
  ghost predicate CopiedFrom(a: array<byte>, from: int, to: int, src: seq<byte>, delta: int)
    reads a
    requires 0 <= from && to <= a.Length && 0 <= from - delta && to - delta <= |src|
  {
    forall k | from <= k < to :: a[k] == src[k - delta]
  }

  /** Bytes [from, to) of `a` repeat those `distance` before them. */
  ghost predicate Spread(a: array<byte>, from: int, to: int, distance: nat)
    reads a
    requires distance <= from && to <= a.Length
  {
    forall k | from <= k < to :: a[k] == a[k - distance]
  }

  /** memcpy of `n` bytes from the input. */
  method CopyIn(dst: array<byte>, d: nat, src: seq<byte>, s: nat, n: nat)
    requires d + n <= dst.Length && s + n <= |src|
    modifies dst
    ensures CopiedFrom(dst, d, d + n, src, d - s)
    ensures SameOutside(dst, old(dst[..]), d, d + n)
  {
    forall i | d <= i < d + n {
      dst[i] := src[i - (d - s)];
    }
  }

  /** memcpy of `n` bytes inside the output, from a region that ends before the destination starts. */
  method CopyWithin(dst: array<byte>, d: nat, s: nat, n: nat)
    requires s + n <= d && d + n <= dst.Length
    modifies dst
    ensures Spread(dst, d, d + n, d - s)
    ensures SameOutside(dst, old(dst[..]), d, d + n)
  {
    forall i | d <= i < d + n {
      dst[i] := dst[i - (d - s)];
    }
  }

  /** LZ4_wildCopy from the input: steps of 8 until `e` is reached. */
  method WildCopyIn(dst: array<byte>, d0: nat, src: seq<byte>, s0: nat, e: nat)
    requires d0 + WildLength(e - d0) <= dst.Length && s0 + WildLength(e - d0) <= |src|
    modifies dst
    ensures CopiedFrom(dst, d0, d0 + WildLength(e - d0), src, d0 - s0)
    ensures SameOutside(dst, old(dst[..]), d0, d0 + WildLength(e - d0))
  {
    ghost var n := WildLength(e - d0);
    var d, s := d0, s0;
    CopyIn(dst, d, src, s, 8);
    d, s := d + 8, s + 8;
    while d < e
      invariant d0 + 8 <= d <= d0 + n && d - s == d0 - s0 && (d - d0) % 8 == 0
      invariant CopiedFrom(dst, d0, d, src, d0 - s0)
      invariant SameOutside(dst, old(dst[..]), d0, d)
    {
      WildRoom(d0, d, e);
      CopyIn(dst, d, src, s, 8);
      d, s := d + 8, s + 8;
    }
    WildDone(d0, d, e);
  }

  lemma WildRoom(d0: nat, d: nat, e: nat)
    requires d0 <= d < e && (d - d0) % 8 == 0
    ensures d + 8 <= d0 + WildLength(e - d0) && (d + 8 - d0) % 8 == 0
  {
    var q := (d - d0) / 8;
    assert d - d0 == 8 * q;
  }

  lemma WildDone(d0: nat, d: nat, e: nat)
    requires d0 + 8 <= d <= d0 + WildLength(e - d0) && e <= d && (d - d0) % 8 == 0
    ensures d == d0 + WildLength(e - d0)
  {
    var q := (d - d0) / 8;
    assert d - d0 == 8 * q;
  }

  /** LZ4_wildCopy inside the output, at a distance of at least 8. */
  method WildCopyWithin(dst: array<byte>, d0: nat, s0: nat, e: nat)
    requires s0 + 8 <= d0 && d0 + WildLength(e - d0) <= dst.Length
    modifies dst
    ensures Spread(dst, d0, d0 + WildLength(e - d0), d0 - s0)
    ensures SameOutside(dst, old(dst[..]), d0, d0 + WildLength(e - d0))
  {
    ghost var n := WildLength(e - d0);
    var d, s := d0, s0;
    CopyWithin(dst, d, s, 8);
    d, s := d + 8, s + 8;
    while d < e
      invariant d0 + 8 <= d <= d0 + n && d - s == d0 - s0 && (d - d0) % 8 == 0
      invariant Spread(dst, d0, d, d0 - s0)
      invariant SameOutside(dst, old(dst[..]), d0, d)
    {
      WildRoom(d0, d, e);
      CopyWithin(dst, d, s, 8);
      d, s := d + 8, s + 8;
    }
    WildDone(d0, d, e);
  }

  /** LZ4_write32. */
  method Write32(dst: array<byte>, op: nat, value: nat)
    requires op + 4 <= dst.Length
    modifies dst
    ensures value == 0 ==> dst[op] == dst[op + 1] == dst[op + 2] == dst[op + 3] == 0
    ensures dst[op..op + 4] == WriteLE(value, 4)
    ensures SameOutside(dst, old(dst[..]), op, op + 4)
  {
    var word := WriteLE(value, 4);
    if value == 0 { WriteLEZero(4); }
    forall i | op <= i < op + 4 {
      dst[i] := word[i - op];
    }
  }

  /** LZ4_writeLE16. */
  method Write16(dst: array<byte>, op: nat, value: nat)
    requires op + 2 <= dst.Length
    modifies dst
    ensures dst[op..op + 2] == WriteLE(value, 2)
    ensures SameOutside(dst, old(dst[..]), op, op + 2)
  {
    var word := WriteLE(value, 2);
    forall i | op <= i < op + 2 {
      dst[i] := word[i - op];
    }
  }
}
