/**
  The block encoder of lz4.c (LZ4_compress_generic as LZ4_compress_default reaches it with a large enough output
  buffer: not limited, no dictionary, acceleration 1). It is proved to emit, for every input of a supported size, the
  layout of a block that meets the end of block conditions and means exactly the input.
 */
module Lz4Encoder {
  import opened Bytes
  import opened Lz4Format
  import opened Lz4Memory
  import opened Lz4Count

  const MAX_INPUT_SIZE := 0x7E000000
  const MIN_LENGTH := MFLIMIT + 1
  const LIMIT_64K := 65536 + (MFLIMIT - 1)

  /** LZ4_COMPRESSBOUND for a size that is supported. */
  function CompressBound(n: nat): (r: nat) {
    n + n / 255 + 16
  }

  // ---------------------------------------------------------------------------------------------
  // The hash table
  // ---------------------------------------------------------------------------------------------

  /** Positions are kept in 16 bits for small inputs and in 32 bits for others. */
  datatype TableType = ByU16 | ByU32

  function TableSize(kind: TableType): (r: nat) {
    if kind == ByU16 then 8192 else 4096
  }

  /** One more than the largest position a slot can hold. */
  function SlotLimit(kind: TableType): (r: nat) {
    if kind == ByU16 then 0x1_0000 else 0x1_0000_0000
  }

  /** The input sizes a table of this type is used for. */
  predicate Supported(kind: TableType, n: nat) {
    n <= MAX_INPUT_SIZE && (kind == ByU16 ==> n < LIMIT_64K)
  }

  /** LZ4_hash4 for a table of 16-bit positions. */
  function Hash4(v: nat): (h: nat)
    ensures h < 8192
  {
    v * 2654435761 % 0x1_0000_0000 / 0x8_0000
  }

  /** LZ4_hash5 for a table of 32-bit positions. */
  function Hash5(v: nat): (h: nat)
    ensures h < 4096
  {
    v * 0x100_0000 % 0x1_0000_0000_0000_0000 * 889523592379 % 0x1_0000_0000_0000_0000 / 0x10_0000_0000_0000
  }

  /** The hash of the bytes at `p`: 4 of them for a 16-bit table, 5 (out of 8 read) otherwise. */
  function HashPosition(src: seq<byte>, p: nat, kind: TableType): (h: nat)
    requires p + 8 <= |src|
    ensures h < TableSize(kind)
  {
    if kind == ByU16 then Hash4(ReadLE(src, p, 4)) else Hash5(ReadLE(src, p, 8))
  }

  /** The hashes of powers of two, which show every bit of the two factors. */
  lemma HashFactors()
    ensures Hash4(1) == 5062 && Hash4(8192) == 7654 && Hash4(524288) == 6577
    ensures Hash5(1) == 3313 && Hash5(4096) == 3004 && Hash5(16777216) == 3531 && Hash5(268435456) == 3259
  {
    hide Hash4, Hash5;
    Hash4Is(1, 0, 5062, 489905);
    Hash4Is(8192, 5062, 7654, 401408);
    Hash4Is(524288, 324027, 6577, 0);
    Hash5Is(1, 0, 3313, 3303880959983616);
    Hash5Is(4096, 3313, 3004, 3883131471921152);
    Hash5Is(16777216, 13573052, 3531, 3096224743817216);
    Hash5Is(268435456, 217168845, 3259, 0);
  }

  /** The hash from the parts of the product that are cut off. */
  lemma Hash4Is(v: nat, high: nat, h: nat, low: nat)
    requires v * 2654435761 == high * 0x1_0000_0000 + h * 0x8_0000 + low && h < 8192 && low < 0x8_0000
    ensures Hash4(v) == h
  {
    CutTo32(v * 2654435761, high, h * 0x8_0000 + low);
    CutFrom19(h, low);
  }

  lemma Hash5Is(v: nat, high: nat, h: nat, low: nat)
    requires v < 0x100_0000_0000 && h < 4096 && low < 0x10_0000_0000_0000
    requires v * 0x100_0000 * 889523592379 == high * 0x1_0000_0000_0000_0000 + h * 0x10_0000_0000_0000 + low
    ensures Hash5(v) == h
  {
    CutTo64(v * 0x100_0000, 0, v * 0x100_0000);
    CutTo64(v * 0x100_0000 * 889523592379, high, h * 0x10_0000_0000_0000 + low);
    CutFrom52(h, low);
  }

  lemma CutTo32(x: nat, high: nat, r: nat)
    requires x == high * 0x1_0000_0000 + r && r < 0x1_0000_0000
    ensures x % 0x1_0000_0000 == r
  {
  }

  lemma CutFrom19(h: nat, low: nat)
    requires low < 0x8_0000
    ensures (h * 0x8_0000 + low) / 0x8_0000 == h
  {
  }

  lemma CutTo64(x: nat, high: nat, r: nat)
    requires x == high * 0x1_0000_0000_0000_0000 + r && r < 0x1_0000_0000_0000_0000
    ensures x % 0x1_0000_0000_0000_0000 == r
  {
  }

  lemma CutFrom52(h: nat, low: nat)
    requires low < 0x10_0000_0000_0000
    ensures (h * 0x10_0000_0000_0000 + low) / 0x10_0000_0000_0000 == h
  {
  }

  /** Every slot holds a position before `n`. */
  ghost predicate Holds(table: array<nat>, kind: TableType, n: nat)
    reads table
  {
    table.Length == TableSize(kind) && forall h | 0 <= h < table.Length :: table[h] < n
  }

  /** Stores position `p`, truncated to the width of a slot. */
  method PutPositionOnHash(table: array<nat>, kind: TableType, p: nat, h: nat)
    requires h < table.Length
    modifies table
    ensures table[h] == p % SlotLimit(kind)
    ensures forall i | 0 <= i < table.Length && i != h :: table[i] == old(table[i])
  {
    table[h] := p % SlotLimit(kind);
  }

  /** A position at which the encoder hashes is stored without loss, in 16 bits too. */
  lemma PositionLossless(kind: TableType, n: nat, p: nat)
    requires Supported(kind, n) && p <= n - MFLIMIT
    ensures p % SlotLimit(kind) == p
    ensures kind == ByU16 ==> p <= MAX_DISTANCE
  {
  }

  /** Puts `p` on the hash of the bytes there. */
  method PutPosition(src: seq<byte>, table: array<nat>, kind: TableType, p: nat, ghost n: nat)
    requires Supported(kind, |src|) && p <= |src| - MFLIMIT && p < n && Holds(table, kind, n)
    modifies table
    ensures Holds(table, kind, n)
    ensures table[HashPosition(src, p, kind)] == p
    ensures forall i | 0 <= i < table.Length && i != HashPosition(src, p, kind) :: table[i] == old(table[i])
  {
    hide HashPosition;
    PositionLossless(kind, |src|, p);
    PutPositionOnHash(table, kind, p, HashPosition(src, p, kind));
  }

  // ---------------------------------------------------------------------------------------------
  // Finding a match
  // ---------------------------------------------------------------------------------------------

  /** Positions `match_` and `ip` start with the same 4 bytes and are close enough for an offset to be written. */
  ghost predicate Candidate(src: seq<byte>, ip: nat, match_: nat) {
    match_ < ip && ip - match_ <= MAX_DISTANCE && ip + MINMATCH <= |src| && Repeats(src, ip, ip + MINMATCH, ip - match_)
  }

  /** The position of try k of a search from `ip0` on: the steps grow by one every 64 tries. */
  ghost function Walk(ip0: nat, k: nat): (p: nat)
    ensures ip0 + k <= p
  {
    if k == 0 then ip0 else Walk(ip0, k - 1) + if k == 1 then 1 else (62 + k) / 64
  }

  /** What slot h holds after n tries, each of which has put its position on the hash of the bytes there. */
  ghost function Slot(src: seq<byte>, kind: TableType, table: seq<nat>, ip0: nat, n: nat, h: nat): (p: nat)
    requires |table| == TableSize(kind) && h < TableSize(kind) && (n > 0 ==> Walk(ip0, n - 1) + 8 <= |src|)
  {
    if n == 0 then table[h]
    else if HashPosition(src, Walk(ip0, n - 1), kind) == h then Walk(ip0, n - 1)
    else Slot(src, kind, table, ip0, n - 1, h)
  }

  /** The position that try n finds in the table. */
  ghost function Tried(src: seq<byte>, kind: TableType, table: seq<nat>, ip0: nat, n: nat): (p: nat)
    requires |table| == TableSize(kind) && Walk(ip0, n) + 8 <= |src|
  {
    Slot(src, kind, table, ip0, n, HashPosition(src, Walk(ip0, n), kind))
  }

  /** The position in the table is too far back for an offset, which is not looked at with 16 bits, or other bytes are there. */
  ghost predicate Useless(src: seq<byte>, kind: TableType, p: nat, match_: nat)
    requires match_ <= p && p + 4 <= |src|
  {
    (kind == ByU32 && p - match_ > 65535) || src[match_..match_ + 4] != src[p..p + 4]
  }

  /** The first n tries were useless. */
  ghost predicate AllUseless(src: seq<byte>, kind: TableType, table: seq<nat>, ip0: nat, n: nat)
    requires |table| == TableSize(kind) && (n > 0 ==> Walk(ip0, n - 1) + 8 <= |src|)
  {
    n > 0 ==>
      && AllUseless(src, kind, table, ip0, n - 1)
      && Tried(src, kind, table, ip0, n - 1) <= Walk(ip0, n - 1)
      && Useless(src, kind, Walk(ip0, n - 1), Tried(src, kind, table, ip0, n - 1))
  }

  /** A search gives up after n useless tries, when the step behind the next try leads to the last 12 bytes. */
  ghost predicate SearchFails(src: seq<byte>, kind: TableType, table: seq<nat>, ip0: nat, n: nat) {
    && |table| == TableSize(kind) && (n > 0 ==> Walk(ip0, n - 1) + 8 <= |src|)
    && AllUseless(src, kind, table, ip0, n) && Walk(ip0, n + 1) > |src| - 12
  }

  lemma WalkStep(ip0: nat, k: nat)
    ensures Walk(ip0, k + 1) == Walk(ip0, k) + if k == 0 then 1 else (63 + k) / 64
  {
  }

  lemma SlotStep(src: seq<byte>, kind: TableType, table: seq<nat>, ip0: nat, n: nat, h: nat)
    requires |table| == TableSize(kind) && h < TableSize(kind) && Walk(ip0, n) + 8 <= |src|
    ensures n > 0 ==> Walk(ip0, n - 1) + 8 <= |src|
    ensures Slot(src, kind, table, ip0, n + 1, h) ==
            if HashPosition(src, Walk(ip0, n), kind) == h then Walk(ip0, n) else Slot(src, kind, table, ip0, n, h)
  {
    hide HashPosition;
  }

  lemma UselessStep(src: seq<byte>, kind: TableType, table: seq<nat>, ip0: nat, n: nat)
    requires |table| == TableSize(kind) && Walk(ip0, n) + 8 <= |src| && (n > 0 ==> Walk(ip0, n - 1) + 8 <= |src|)
    requires AllUseless(src, kind, table, ip0, n)
    requires Tried(src, kind, table, ip0, n) <= Walk(ip0, n) && Useless(src, kind, Walk(ip0, n), Tried(src, kind, table, ip0, n))
    ensures AllUseless(src, kind, table, ip0, n + 1)
  {
    hide HashPosition, Useless, Tried;
  }

  lemma SameFour(src: seq<byte>, p: nat, match_: nat)
    requires match_ <= p && p + 4 <= |src|
    ensures Repeats(src, p, p + 4, p - match_) <==> src[match_..match_ + 4] == src[p..p + 4]
  {
    if src[match_..match_ + 4] == src[p..p + 4] {
      forall k | p <= k < p + 4 ensures src[k] == src[k - (p - match_)] {
        assert src[p..p + 4][k - p] == src[match_..match_ + 4][k - p];
      }
    }
    if Repeats(src, p, p + 4, p - match_) {
      assert forall k | p <= k < p + 4 :: src[k] == src[k - (p - match_)];
      assert src[p] == src[match_] && src[p + 1] == src[match_ + 1] && src[p + 2] == src[match_ + 2] && src[p + 3] == src[match_ + 3];
    }
  }

  /** The table after n tries. */
  ghost predicate Filled(src: seq<byte>, kind: TableType, table: seq<nat>, ip0: nat, n: nat, now: seq<nat>)
    requires |table| == TableSize(kind) && (n > 0 ==> Walk(ip0, n - 1) + 8 <= |src|)
  {
    |now| == |table| && forall h | 0 <= h < |now| :: now[h] == Slot(src, kind, table, ip0, n, h)
  }

  lemma FilledStep(src: seq<byte>, kind: TableType, table: seq<nat>, ip0: nat, n: nat, was: seq<nat>, now: seq<nat>)
    requires |table| == TableSize(kind) && Walk(ip0, n) + 8 <= |src| && (n > 0 ==> Walk(ip0, n - 1) + 8 <= |src|)
    requires Filled(src, kind, table, ip0, n, was)
    requires now == was[HashPosition(src, Walk(ip0, n), kind) := Walk(ip0, n)]
    ensures Filled(src, kind, table, ip0, n + 1, now)
  {
    hide HashPosition, Slot, Walk;
    forall h | 0 <= h < |now| ensures now[h] == Slot(src, kind, table, ip0, n + 1, h) {
      SlotStep(src, kind, table, ip0, n, h);
    }
  }

  lemma FilledTried(src: seq<byte>, kind: TableType, table: seq<nat>, ip0: nat, n: nat, now: seq<nat>)
    requires |table| == TableSize(kind) && Walk(ip0, n) + 8 <= |src| && (n > 0 ==> Walk(ip0, n - 1) + 8 <= |src|)
    requires Filled(src, kind, table, ip0, n, now)
    ensures now[HashPosition(src, Walk(ip0, n), kind)] == Tried(src, kind, table, ip0, n)
  {
    hide HashPosition, Slot, Walk;
  }

  lemma {:induction false} FewerUseless(src: seq<byte>, kind: TableType, table: seq<nat>, ip0: nat, n: nat)
    requires |table| == TableSize(kind) && 0 < n && Walk(ip0, n - 1) + 8 <= |src| && AllUseless(src, kind, table, ip0, n)
    ensures ip0 + 8 <= |src| && AllUseless(src, kind, table, ip0, 1) && Walk(ip0, 0) == ip0
  {
    hide HashPosition, Useless, Tried;
    if n > 1 { FewerUseless(src, kind, table, ip0, n - 1); }
  }

  /** A search that begins with an empty table fails on 14 bytes or more only if the first four bytes differ from those one further. */
  lemma FirstTry(src: seq<byte>, kind: TableType, table: seq<nat>, n: nat)
    requires SearchFails(src, kind, table, 1, n) && |src| >= 14 && forall h | 0 <= h < |table| :: table[h] == 0
    ensures src[0..4] != src[1..5]
  {
    hide HashPosition, AllUseless;
    assert Walk(1, 0) == 1 && Walk(1, 1) == 2;
    FewerUseless(src, kind, table, 1, n);
    OneUseless(src, kind, table);
  }

  lemma OneUseless(src: seq<byte>, kind: TableType, table: seq<nat>)
    requires |table| == TableSize(kind) && |src| >= 14 && AllUseless(src, kind, table, 1, 1)
    ensures var h := HashPosition(src, 1, kind); table[h] <= 1 && Useless(src, kind, 1, table[h])
  {
    hide HashPosition, Useless;
    assert Walk(1, 0) == 1;
  }

  /** Looks at the position in slot h and puts `ip` there. */
  method Try(src: seq<byte>, table: array<nat>, kind: TableType, ip: nat, h: nat) returns (found: bool, match_: nat)
    requires Supported(kind, |src|) && ip < |src| - MFLIMIT && h < TableSize(kind) && Holds(table, kind, ip)
    modifies table
    ensures match_ == old(table[h]) && match_ < ip && table[..] == old(table[..])[h := ip] && Holds(table, kind, ip + 1)
    ensures found <==> !Useless(src, kind, ip, match_)
    ensures found ==> Candidate(src, ip, match_)
  {
    hide ReadLE;
    match_ := table[h];
    PositionLossless(kind, |src|, ip);
    PutPositionOnHash(table, kind, ip, h);
    SameWord(src, ip, ip - match_, 4);
    SameFour(src, ip, match_);
    found := (kind == ByU16 || match_ + MAX_DISTANCE >= ip) && ReadLE(src, match_, 4) == ReadLE(src, ip, 4);
  }

  /**
    Walks forward, with growing steps, until a candidate turns up or a match could no longer start. All tries before the candidate,
    or all tries when there is none, were useless.
   */
  method FindMatch(src: seq<byte>, table: array<nat>, kind: TableType, ip0: nat, forwardH0: nat)
    returns (found: bool, ip: nat, match_: nat, ghost n: nat)
    requires |src| >= MIN_LENGTH && Supported(kind, |src|) && ip0 <= |src| - MFLIMIT + 1
    requires forwardH0 == HashPosition(src, ip0, kind) && Holds(table, kind, ip0)
    modifies table
    ensures found ==> ip0 <= ip < |src| - MFLIMIT && Candidate(src, ip, match_) && Holds(table, kind, ip + 1)
    ensures found ==> ip == Walk(ip0, n) && (n > 0 ==> Walk(ip0, n - 1) + 8 <= |src|) && AllUseless(src, kind, old(table[..]), ip0, n)
    ensures found ==> match_ == Tried(src, kind, old(table[..]), ip0, n) && !Useless(src, kind, ip, match_)
    ensures !found ==> SearchFails(src, kind, old(table[..]), ip0, n)
  {
    hide HashPosition, ReadLE, Walk, Slot, Tried, AllUseless, Filled, Useless, Candidate;
    ghost var table0 := table[..];
    FilledStart(src, kind, table0, ip0);
    var mflimit := |src| - MFLIMIT;
    ip, match_, n := ip0, 0, 0;
    var forwardIp: nat, forwardH: nat := ip0, forwardH0;
    var step, searchMatchNb := 1, 64;
    while true
      invariant ip0 <= forwardIp <= mflimit + 1 && forwardH == HashPosition(src, forwardIp, kind)
      invariant searchMatchNb == 64 + n && step == if n == 0 then 1 else (63 + n) / 64
      invariant forwardIp == Walk(ip0, n) && (n > 0 ==> Walk(ip0, n - 1) + 8 <= |src|)
      invariant Holds(table, kind, forwardIp) && Filled(src, kind, table0, ip0, n, table[..])
      invariant AllUseless(src, kind, table0, ip0, n)
      decreases |src| - forwardIp
    {
      var h := forwardH;
      ip := forwardIp;
      WalkStep(ip0, n);
      FilledTried(src, kind, table0, ip0, n, table[..]);
      forwardIp := forwardIp + step;
      step := searchMatchNb / 64;
      searchMatchNb := searchMatchNb + 1;
      if forwardIp > mflimit {
        return false, ip, match_, n;
      }
      ghost var was := table[..];
      found, match_ := Try(src, table, kind, ip, h);
      forwardH := HashPosition(src, forwardIp, kind);
      if found {
        return true, ip, match_, n;
      }
      UselessStep(src, kind, table0, ip0, n);
      FilledStep(src, kind, table0, ip0, n, was, table[..]);
      n := n + 1;
    }
  }

  lemma FilledStart(src: seq<byte>, kind: TableType, table: seq<nat>, ip0: nat)
    requires |table| == TableSize(kind)
    ensures Filled(src, kind, table, ip0, 0, table) && AllUseless(src, kind, table, ip0, 0) && Walk(ip0, 0) == ip0
  {
  }

  /** Extends a candidate backwards as far as the bytes before it agree and are not yet encoded. */
  method CatchUp(src: seq<byte>, anchor: nat, ip0: nat, match0: nat) returns (ip: nat, match_: nat)
    requires anchor <= ip0 && Candidate(src, ip0, match0)
    ensures anchor <= ip <= ip0 && ip - match_ == ip0 - match0
    ensures Repeats(src, ip, ip0 + MINMATCH, ip - match_)
    ensures ip == anchor || match_ == 0 || src[ip - 1] != src[match_ - 1]
  {
    ip, match_ := ip0, match0;
    while ip > anchor && match_ > 0 && src[ip - 1] == src[match_ - 1]
      invariant anchor <= ip <= ip0 && ip - match_ == ip0 - match0
      invariant Repeats(src, ip, ip0 + MINMATCH, ip - match_)
    {
      ip, match_ := ip - 1, match_ - 1;
    }
  }

  /** Fills the table behind a match and looks for another one that starts right where it ended. */
  method TestNextPosition(src: seq<byte>, table: array<nat>, kind: TableType, ip: nat) returns (found: bool, match_: nat)
    requires Supported(kind, |src|) && 2 <= ip <= |src| - MFLIMIT && Holds(table, kind, ip)
    modifies table
    ensures Holds(table, kind, ip + 1)
    ensures found ==> Candidate(src, ip, match_)
    ensures match_ == if HashPosition(src, ip - 2, kind) == HashPosition(src, ip, kind) then ip - 2 else old(table[HashPosition(src, ip, kind)])
    ensures found <==> ip - match_ <= 65535 && src[match_..match_ + 4] == src[ip..ip + 4]
  {
    hide HashPosition, ReadLE;
    PutPosition(src, table, kind, ip - 2, ip);
    match_ := table[HashPosition(src, ip, kind)];
    PutPosition(src, table, kind, ip, ip + 1);
    found := match_ + MAX_DISTANCE >= ip && ReadLE(src, match_, 4) == ReadLE(src, ip, 4);
    SameWord(src, ip, ip - match_, 4);
    SameFour(src, ip, match_);
  }

  // ---------------------------------------------------------------------------------------------
  // Emitting
  // ---------------------------------------------------------------------------------------------

  /** The bytes that extend a length of `n` past its nibble: 255s, then the rest. */
  method EmitExt(dst: array<byte>, op0: nat, n: nat) returns (op: nat)
    requires op0 + |ExtBytes(n)| <= dst.Length
    modifies dst
    ensures op == op0 + |ExtBytes(n)| && dst[op0..op] == ExtBytes(n)
    ensures SameOutside(dst, old(dst[..]), op0, op)
  {
    hide ExtBytes;
    op := op0;
    var len := n;
    while len >= 255
      invariant 0 <= len <= n && op0 <= op && n == 255 * (op - op0) + len
      invariant forall i | op0 <= i < op :: dst[i] == 255
      invariant SameOutside(dst, old(dst[..]), op0, op)
    {
      dst[op] := 255;
      op, len := op + 1, len - 255;
    }
    dst[op] := len;
    op := op + 1;
    ExtBytesShape(n, dst[op0..op]);
  }

  /** A token without its match nibble and the literals src[anchor..ip], copied by steps of 8. */
  method EmitLiterals(src: seq<byte>, anchor: nat, ip: nat, dst: array<byte>, op0: nat) returns (op: nat)
    requires anchor <= ip && ip + 8 <= |src|
    requires op0 + |EncodeRun(src[anchor..ip], 0)| + 8 <= dst.Length
    modifies dst
    ensures op == op0 + |EncodeRun(src[anchor..ip], 0)| && dst[op0..op] == EncodeRun(src[anchor..ip], 0)
    ensures SameOutside(dst, old(dst[..]), op0, op + 8)
  {
    hide ExtBytes;
    var litLength := ip - anchor;
    ghost var literals := src[anchor..ip];
    op := EmitToken(dst, op0, litLength);
    ghost var head := dst[op0..op];
    WildCopyIn(dst, op, src, anchor, op + litLength);
    assert dst[op..op + litLength] == literals;
    assert dst[op0..op] == head;
    assert dst[op0..op + litLength] == head + literals;
    op := op + litLength;
  }

  /** A token for `litLength` literals and the bytes that extend it. */
  method EmitToken(dst: array<byte>, op0: nat, litLength: nat) returns (op: nat)
    requires op0 + 1 + |Ext(litLength)| <= dst.Length
    modifies dst
    ensures op == op0 + 1 + |Ext(litLength)|
    ensures dst[op0..op] == [16 * Nibble(litLength)] + Ext(litLength)
    ensures SameOutside(dst, old(dst[..]), op0, op)
  {
    hide ExtBytes;
    op := op0 + 1;
    if litLength >= RUN_MASK {
      dst[op0] := RUN_MASK * 16;
      op := EmitExt(dst, op, litLength - RUN_MASK);
      assert dst[op0..op] == [dst[op0]] + dst[op0 + 1..op];
    } else {
      dst[op0] := litLength * 16;
    }
  }

  /** The last literals: a token and an exact copy. */
  method EmitLastLiterals(src: seq<byte>, anchor: nat, dst: array<byte>, op0: nat) returns (op: nat)
    requires anchor <= |src|
    requires op0 + |EncodeRun(src[anchor..], 0)| <= dst.Length
    modifies dst
    ensures op == op0 + |EncodeRun(src[anchor..], 0)| && dst[op0..op] == EncodeRun(src[anchor..], 0)
    ensures SameOutside(dst, old(dst[..]), op0, op)
  {
    hide ExtBytes;
    var lastRun := |src| - anchor;
    op := EmitToken(dst, op0, lastRun);
    ghost var head := dst[op0..op];
    CopyIn(dst, op, src, anchor, lastRun);
    assert dst[op..op + lastRun] == src[anchor..];
    assert dst[op0..op] == head;
    assert dst[op0..op + lastRun] == head + src[anchor..];
    op := op + lastRun;
  }

  /** The bytes that extend a match length: 255s stored four at a time, then the rest. */
  method EmitMatchExt(dst: array<byte>, op0: nat, n: nat) returns (op: nat)
    requires op0 + |ExtBytes(n)| + 3 <= dst.Length
    modifies dst
    ensures op == op0 + |ExtBytes(n)| && dst[op0..op] == ExtBytes(n)
    ensures SameOutside(dst, old(dst[..]), op0, op + 3)
  {
    op := op0;
    var matchCode := n;
    WriteLEOnes();
    Write32(dst, op, 0xFFFF_FFFF);
    AllOnes(dst[..], op);
    while matchCode >= 4 * 255
      invariant op0 <= op && 0 <= matchCode && n - matchCode == 255 * (op - op0)
      invariant op + 4 <= dst.Length && forall i | op0 <= i < op + 4 :: dst[i] == 255
      invariant SameOutside(dst, old(dst[..]), op0, op + 4)
    {
      op := op + 4;
      Write32(dst, op, 0xFFFF_FFFF);
      AllOnes(dst[..], op);
      matchCode := matchCode - 4 * 255;
    }
    op := op + matchCode / 255;
    dst[op] := matchCode % 255;
    op := op + 1;
    ExtBytesShape(n, dst[op0..op]);
  }

  lemma WriteLEOnes()
    ensures WriteLE(0xFFFF_FFFF, 4) == [255, 255, 255, 255]
  {
    assert WriteLE(0xFF, 1) == [255];
    assert WriteLE(0xFFFF, 2) == [255, 255];
    assert WriteLE(0xFF_FFFF, 3) == [255, 255, 255];
  }

  lemma AllOnes(s: seq<byte>, op: nat)
    requires op + 4 <= |s| && s[op..op + 4] == [255, 255, 255, 255]
    ensures forall i | op <= i < op + 4 :: s[i] == 255
  {
    forall i | op <= i < op + 4 ensures s[i] == 255 {
      assert s[i] == s[op..op + 4][i - op];
    }
  }

  /** n / 255 bytes of 255 and the remainder are the extension of `n`. */
  lemma {:induction false} ExtBytesShape(n: nat, s: seq<byte>)
    requires |s| == n / 255 + 1 && s[n / 255] == n % 255
    requires forall i | 0 <= i < n / 255 :: s[i] == 255
    ensures s == ExtBytes(n)
    decreases n
  {
    if n >= 255 {
      assert (n - 255) / 255 == n / 255 - 1 && (n - 255) % 255 == n % 255;
      ExtBytesShape(n - 255, s[1..]);
    }
  }

  /** The offset and the extension of the match length. */
  method EmitOffsetAndLength(dst: array<byte>, op0: nat, offset: nat, matchCode: nat) returns (op: nat)
    requires 0 < offset <= MAX_DISTANCE && op0 + 2 + |Ext(matchCode)| + 3 <= dst.Length
    modifies dst
    ensures op == op0 + |EncodeMatch(offset, matchCode + MINMATCH)|
    ensures dst[op0..op] == EncodeMatch(offset, matchCode + MINMATCH)
    ensures SameOutside(dst, old(dst[..]), op0, op + 3)
  {
    hide ExtBytes, WriteLE;
    Write16(dst, op0, offset);
    op := op0 + 2;
    if matchCode >= ML_MASK {
      op := EmitMatchExt(dst, op, matchCode - ML_MASK);
    }
    assert dst[op0..op0 + 2] == WriteLE(offset, 2);
    assert dst[op0..op] == dst[op0..op0 + 2] + dst[op0 + 2..op];
  }

  /** Emits the offset and the match length, and adds the match nibble to the token of the literals before them. */
  method EmitMatch(dst: array<byte>, token: nat, op0: nat, offset: nat, matchCode: nat, ghost literals: seq<byte>) returns (op: nat)
    requires 0 < offset <= MAX_DISTANCE
    requires token < op0 && op0 + 2 + |Ext(matchCode)| + 3 <= dst.Length
    requires dst[token..op0] == EncodeRun(literals, 0)
    modifies dst
    ensures op == op0 + 2 + |Ext(matchCode)|
    ensures dst[token..op] == EncodeSequence(Sequence(literals, offset, matchCode + MINMATCH))
    ensures SameOutside(dst, old(dst[..]), token, op + 3)
  {
    hide Ext, EncodeRun, EncodeMatch;
    op := EmitOffsetAndLength(dst, op0, offset, matchCode);
    ghost var run, body := dst[token..op0], dst[op0..op];
    assert run == EncodeRun(literals, 0);
    dst[token] := TokenWith(dst[token], literals, Nibble(matchCode));
    assert dst[token..op0] == EncodeRun(literals, Nibble(matchCode)) by {
      TokenCompleted(dst[token..op0], literals, Nibble(matchCode));
    }
    assert dst[op0..op] == body;
    assert dst[token..op] == dst[token..op0] + dst[op0..op];
  }

  /** A token with its match nibble added. */
  function TokenWith(token: byte, ghost literals: seq<byte>, low: nat): (r: byte)
    requires low <= 15 && token == EncodeRun(literals, 0)[0]
  {
    token + low
  }

  lemma TokenCompleted(s: seq<byte>, literals: seq<byte>, low: nat)
    requires low <= 15 && |s| == |EncodeRun(literals, 0)|
    requires s[0] == EncodeRun(literals, 0)[0] + low && s[1..] == EncodeRun(literals, 0)[1..]
    ensures s == EncodeRun(literals, low)
  {
    assert s == [s[0]] + s[1..];
    assert EncodeRun(literals, low)[1..] == EncodeRun(literals, 0)[1..];
  }

  // ---------------------------------------------------------------------------------------------
  // What has been emitted
  // ---------------------------------------------------------------------------------------------

  /** The output from `base` to `op` is the layout of `sequences`, which mean the input before `anchor`; it grew by at most 1/255. */
  ghost predicate Emitted(dst: seq<byte>, base: nat, op: nat, src: seq<byte>, anchor: nat, sequences: seq<Sequence>) {
    && anchor <= |src| && base <= op <= |dst|
    && WellFormed(sequences, 0, |src|) && AllRepresentable(sequences)
    && Run(sequences, []) == src[..anchor]
    && dst[base..op] == EncodeSequences(sequences)
    && 255 * (op - base) <= 256 * anchor
  }

  lemma ExtGrowth(n: nat)
    ensures 255 * |Ext(n)| <= n + 240 && (n < 15 ==> |Ext(n)| == 0)
  {
    hide ExtBytes;
  }

  /** A sequence never makes the output grow by more than 1/255 of the input it covers. */
  lemma SequenceGrowth(o: nat, anchor: nat, literals: nat, matchCode: nat)
    requires 255 * o <= 256 * anchor
    ensures 255 * (o + 3 + literals + |Ext(literals)| + |Ext(matchCode)|) <= 256 * (anchor + literals + matchCode + MINMATCH)
  {
    hide Ext;
    ExtGrowth(literals);
    ExtGrowth(matchCode);
  }

  /** So there are always 16 bytes left below the bound. */
  lemma BoundLeft(o: nat, a: nat, n: nat)
    requires 255 * o <= 256 * a && a <= n
    ensures o + 16 <= CompressBound(n)
  {
  }

  lemma LastGrowth(o: nat, anchor: nat, n: nat)
    requires 255 * o <= 256 * anchor && anchor <= n
    ensures o + 1 + |Ext(n - anchor)| + (n - anchor) <= CompressBound(n)
  {
    hide Ext;
    ExtGrowth(n - anchor);
  }

  /** Input that repeats itself `offset` bytes back is what the match copies. */
  lemma MatchMeansInput(src: seq<byte>, anchor: nat, ip: nat, end: nat, offset: nat)
    requires anchor <= ip <= end <= |src| && 0 < offset <= ip && Repeats(src, ip, end, offset)
    ensures Apply(src[..anchor], Sequence(src[anchor..ip], offset, end - ip)) == src[..end]
  {
    hide CopyMatch;
    assert src[..anchor] + src[anchor..ip] == src[..ip];
    var r := src[..end];
    assert r[..ip] == src[..ip];
    CopyMatchUnique(src[..ip], offset, end - ip, r);
  }

  /** Emitting one more sequence. */
  lemma EmittedSnoc(before: seq<byte>, dst: seq<byte>, base: nat, token: nat, op: nat, src: seq<byte>,
                    anchor: nat, ip: nat, end: nat, offset: nat, sequences: seq<Sequence>)
    requires Emitted(before, base, token, src, anchor, sequences)
    requires anchor <= ip && end - ip >= MINMATCH && 0 < offset <= MAX_DISTANCE && offset <= ip
    requires ip <= |src| - MFLIMIT && end <= |src| - LASTLITERALS && Repeats(src, ip, end, offset)
    requires token <= op <= |dst| && dst[base..token] == before[base..token]
    requires dst[token..op] == EncodeSequence(Sequence(src[anchor..ip], offset, end - ip))
    ensures Emitted(dst, base, op, src, end, sequences + [Sequence(src[anchor..ip], offset, end - ip)])
  {
    hide Apply, EncodeSequence, Run, WellFormed, Ext;
    var s := Sequence(src[anchor..ip], offset, end - ip);
    MatchMeansInput(src, anchor, ip, end, offset);
    RunSnoc(sequences, s, []);
    WellFormedSnoc(sequences, s, [], |src|);
    EncodeSnoc(sequences, s);
    assert dst[base..op] == dst[base..token] + dst[token..op];
    SequenceGrowth(token - base, anchor, ip - anchor, end - ip - MINMATCH);
  }

  lemma EmittedRoom(dst: seq<byte>, base: nat, op: nat, src: seq<byte>, anchor: nat, sequences: seq<Sequence>)
    requires Emitted(dst, base, op, src, anchor, sequences)
    ensures base <= op && op - base + 16 <= CompressBound(|src|) && anchor <= |src|
  {
    hide WellFormed, Run, EncodeSequences;
    BoundLeft(op - base, anchor, |src|);
  }

  lemma SomethingEmitted(dst: seq<byte>, base: nat, op: nat, src: seq<byte>, anchor: nat, sequences: seq<Sequence>)
    requires Emitted(dst, base, op, src, anchor, sequences) && anchor > 0
    ensures sequences != []
  {
  }

  lemma EmittedNothing(dst: seq<byte>, base: nat, src: seq<byte>)
    requires base <= |dst|
    ensures Emitted(dst, base, base, src, 0, [])
  {
  }

  // ---------------------------------------------------------------------------------------------
  // The encoder
  // ---------------------------------------------------------------------------------------------

  /** A match at `ip`, known to reach `reach`, whose literals from `anchor` on already lie at `token`. */
  ghost predicate Pending(dst: seq<byte>, base: nat, token: nat, op: nat, src: seq<byte>, anchor: nat, ip: nat, match_: nat,
                          reach: nat, sequences: seq<Sequence>)
  {
    && Emitted(dst, base, token, src, anchor, sequences)
    && anchor <= ip && match_ < ip && ip - match_ <= MAX_DISTANCE
    && ip + MINMATCH <= reach && ip <= |src| - MFLIMIT && reach <= |src| - LASTLITERALS
    && Repeats(src, ip, reach, ip - match_)
    && token < op <= |dst| && dst[token..op] == EncodeRun(src[anchor..ip], 0)
  }

  /** Emits one match: measures it, writes its offset and length, and completes the token of its literals. */
  method EmitOneMatch(src: seq<byte>, dst: array<byte>, base: nat, token: nat, op0: nat, ghost anchor: nat, ip0: nat, match_: nat,
                      ghost reach: nat, ghost sequences0: seq<Sequence>)
    returns (ip: nat, op: nat, ghost sequences: seq<Sequence>)
    requires base + CompressBound(|src|) <= dst.Length
    requires Pending(dst[..], base, token, op0, src, anchor, ip0, match_, reach, sequences0)
    modifies dst
    ensures reach <= ip <= |src| - LASTLITERALS && Emitted(dst[..], base, op, src, ip, sequences)
    ensures SameOutside(dst, old(dst[..]), base, base + CompressBound(|src|))
  {
    hide EncodeRun, EncodeSequence, WellFormed, Run, EncodeSequences, Ext;
    var matchCode := Count(src, ip0 + MINMATCH, match_ + MINMATCH, |src| - LASTLITERALS);
    ip := ip0 + MINMATCH + matchCode;
    assert Repeats(src, ip0, ip, ip0 - match_) && reach <= ip;
    SequenceGrowth(token - base, anchor, ip0 - anchor, matchCode);
    BoundLeft(token - base + 3 + (ip0 - anchor) + |Ext(ip0 - anchor)| + |Ext(matchCode)|, ip, |src|);
    RunSize(src[anchor..ip0]);
    op := EmitMatch(dst, token, op0, ip0 - match_, matchCode, src[anchor..ip0]);
    assert dst[..][base..token] == old(dst[..])[base..token];
    EmittedSnoc(old(dst[..]), dst[..], base, token, op, src, anchor, ip0, ip, ip0 - match_, sequences0);
    sequences := sequences0 + [Sequence(src[anchor..ip0], ip0 - match_, ip - ip0)];
  }

  /** Emits a match, and then every match that starts right where the one before it ended. */
  method EmitMatches(src: seq<byte>, table: array<nat>, kind: TableType, dst: array<byte>, base: nat, token0: nat, op0: nat,
                     ghost anchor0: nat, ip0: nat, match0: nat, ghost reach0: nat, ghost sequences0: seq<Sequence>)
    returns (ended: bool, ip: nat, op: nat, ghost sequences: seq<Sequence>)
    requires Supported(kind, |src|) && base + CompressBound(|src|) <= dst.Length
    requires Pending(dst[..], base, token0, op0, src, anchor0, ip0, match0, reach0, sequences0)
    requires Holds(table, kind, reach0 - 3)
    modifies dst, table
    ensures reach0 <= ip <= |src| - LASTLITERALS && Emitted(dst[..], base, op, src, ip, sequences)
    ensures !ended ==> 2 <= ip <= |src| - MFLIMIT && Holds(table, kind, ip + 1)
    ensures SameOutside(dst, old(dst[..]), base, base + CompressBound(|src|))
  {
    hide EncodeRun, Emitted, Repeats, HashPosition;
    var match_: nat, token: nat := match0, token0;
    ip, op, sequences, ended := ip0, op0, sequences0, false;
    ghost var anchor: nat, reach: nat := anchor0, reach0;
    while true
      invariant Pending(dst[..], base, token, op, src, anchor, ip, match_, reach, sequences)
      invariant Holds(table, kind, reach - 3) && reach >= reach0
      invariant SameOutside(dst, old(dst[..]), base, base + CompressBound(|src|))
      decreases |src| - ip
    {
      ip, op, sequences := EmitOneMatch(src, dst, base, token, op, anchor, ip, match_, reach, sequences);
      anchor := ip;
      if ip > |src| - MFLIMIT {
        ended := true;
        return;
      }
      var found;
      found, match_ := TestNextPosition(src, table, kind, ip);
      if !found {
        return;
      }
      EmittedRoom(dst[..], base, op, src, anchor, sequences);
      token := op;
      ghost var emitted := dst[..];
      op := op + 1;
      dst[token] := 0;
      reach := ip + MINMATCH;
      EmptyRun(dst[..], emitted, base, token, src, anchor, sequences);
    }
  }

  lemma RunSize(literals: seq<byte>)
    ensures |EncodeRun(literals, 0)| == 1 + |Ext(|literals|)| + |literals|
  {
  }

  lemma EmptyRun(dst: seq<byte>, before: seq<byte>, base: nat, token: nat, src: seq<byte>, anchor: nat, sequences: seq<Sequence>)
    requires Emitted(before, base, token, src, anchor, sequences) && token < |dst| == |before| && dst[token] == 0
    requires forall k | 0 <= k < |dst| && k != token :: dst[k] == before[k]
    ensures Emitted(dst, base, token, src, anchor, sequences)
    ensures dst[token..token + 1] == EncodeRun(src[anchor..anchor], 0)
  {
    hide WellFormed, Run, EncodeSequences;
    assert dst[base..token] == before[base..token];
  }

  /** `block` is the layout of sequences that meet the end of block conditions and mean `src`. */
  ghost predicate IsBlockOf(src: seq<byte>, block: seq<byte>, sequences: seq<Sequence>, last: seq<byte>) {
    && WellFormed(sequences, 0, |src|) && AllRepresentable(sequences)
    && block == EncodeBlock(sequences, last, 0)
    && Run(sequences, []) + last == src
  }

  /**
    LZ4_compress_generic. The result is the number of bytes emitted from `base` on, or 0 when the size is not
    supported; nothing outside the bound is written. Input of 13 bytes or more is made into literals only after a search of it failed.
   */
  method CompressGeneric(src: seq<byte>, table: array<nat>, kind: TableType, dst: array<byte>, base: nat)
    returns (size: nat, ghost sequences: seq<Sequence>, ghost last: seq<byte>)
    requires Supported(kind, |src|) ==> base + CompressBound(|src|) <= dst.Length
    requires table.Length == TableSize(kind) && forall h | 0 <= h < table.Length :: table[h] == 0
    modifies dst, table
    ensures size == 0 <==> !Supported(kind, |src|)
    ensures size > 0 ==> size <= CompressBound(|src|) && IsBlockOf(src, dst[base..base + size], sequences, last)
    ensures Supported(kind, |src|) ==> SameOutside(dst, old(dst[..]), base, base + CompressBound(|src|))
    ensures size > 0 && sequences == [] && |src| >= 13 ==> exists n :: SearchFails(src, kind, old(table[..]), 1, n)
  {
    hide SearchFails;
    sequences, last := [], [];
    if |src| > MAX_INPUT_SIZE || (kind == ByU16 && |src| >= LIMIT_64K) {
      return 0, sequences, last;
    }
    var anchor: nat, op: nat := 0, base;
    EmittedNothing(dst[..], base, src);
    if |src| >= MIN_LENGTH {
      anchor, op, sequences := EmitSequences(src, table, kind, dst, base);
    }
    hide Emitted, IsBlockOf;
    size := FinishBlock(src, dst, base, op, anchor, sequences);
    last := src[anchor..];
  }

  /** The last literals close the block. */
  method FinishBlock(src: seq<byte>, dst: array<byte>, base: nat, op: nat, anchor: nat, ghost sequences: seq<Sequence>) returns (size: nat)
    requires base + CompressBound(|src|) <= dst.Length && Emitted(dst[..], base, op, src, anchor, sequences)
    modifies dst
    ensures 0 < size <= CompressBound(|src|) && IsBlockOf(src, dst[base..base + size], sequences, src[anchor..])
    ensures SameOutside(dst, old(dst[..]), base, base + CompressBound(|src|))
  {
    hide WellFormed, Run, EncodeSequences, Ext, EncodeRun;
    LastGrowth(op - base, anchor, |src|);
    RunSize(src[anchor..]);
    ghost var emitted := dst[base..op];
    var end := EmitLastLiterals(src, anchor, dst, op);
    assert dst[base..op] == emitted;
    assert dst[base..end] == dst[base..op] + dst[op..end];
    assert src[..anchor] + src[anchor..] == src;
    size := end - base;
  }

  /** The main loop: everything up to the last literals. */
  method EmitSequences(src: seq<byte>, table: array<nat>, kind: TableType, dst: array<byte>, base: nat)
    returns (anchor: nat, op: nat, ghost sequences: seq<Sequence>)
    requires Supported(kind, |src|) && |src| >= MIN_LENGTH && base + CompressBound(|src|) <= dst.Length
    requires table.Length == TableSize(kind) && forall h | 0 <= h < table.Length :: table[h] == 0
    modifies dst, table
    ensures Emitted(dst[..], base, op, src, anchor, sequences)
    ensures SameOutside(dst, old(dst[..]), base, base + CompressBound(|src|))
    ensures sequences == [] ==> exists n :: SearchFails(src, kind, old(table[..]), 1, n)
  {
    hide WellFormed, Run, EncodeSequences, EncodeRun, HashPosition, Repeats, SearchFails, AllUseless, Useless, Tried, Walk;
    anchor, op, sequences := 0, base, [];
    EmittedNothing(dst[..], base, src);
    PutPosition(src, table, kind, 0, 1);
    assert table[..] == old(table[..]);
    var ip: nat := 1;
    var forwardH := HashPosition(src, ip, kind);
    while true
      invariant anchor < ip <= |src| - MFLIMIT + 1 && forwardH == HashPosition(src, ip, kind)
      invariant Holds(table, kind, ip) && (sequences == [] ==> ip == 1 && table[..] == old(table[..]))
      invariant Emitted(dst[..], base, op, src, anchor, sequences)
      invariant SameOutside(dst, old(dst[..]), base, base + CompressBound(|src|))
      decreases |src| - ip
    {
      var found, at, match_, _ := FindMatch(src, table, kind, ip, forwardH);
      if !found {
        return;
      }
      var start;
      start, match_ := CatchUp(src, anchor, at, match_);
      var token := op;
      op := EmitPending(src, dst, base, token, anchor, start, match_, at + MINMATCH, sequences);
      var ended;
      ended, ip, op, sequences :=
        EmitMatches(src, table, kind, dst, base, token, op, anchor, start, match_, at + MINMATCH, sequences);
      anchor := ip;
      SomethingEmitted(dst[..], base, op, src, anchor, sequences);
      if ended {
        return;
      }
      ip := ip + 1;
      forwardH := HashPosition(src, ip, kind);
    }
  }

  /** The literals before a match. */
  method EmitPending(src: seq<byte>, dst: array<byte>, base: nat, token: nat, anchor: nat, ip: nat, ghost match_: nat,
                     ghost reach: nat, ghost sequences: seq<Sequence>)
    returns (op: nat)
    requires base + CompressBound(|src|) <= dst.Length && Emitted(dst[..], base, token, src, anchor, sequences)
    requires anchor <= ip && match_ < ip && ip - match_ <= MAX_DISTANCE
    requires ip + MINMATCH <= reach && ip <= |src| - MFLIMIT && reach <= |src| - LASTLITERALS
    requires Repeats(src, ip, reach, ip - match_)
    modifies dst
    ensures Pending(dst[..], base, token, op, src, anchor, ip, match_, reach, sequences)
    ensures SameOutside(dst, old(dst[..]), base, base + CompressBound(|src|))
  {
    hide WellFormed, Run, EncodeSequences, EncodeRun, Ext;
    SequenceGrowth(token - base, anchor, ip - anchor, 0);
    BoundLeft(token - base + 3 + (ip - anchor) + |Ext(ip - anchor)| + |Ext(0)|, ip + MINMATCH, |src|);
    RunSize(src[anchor..ip]);
    op := EmitLiterals(src, anchor, ip, dst, token);
    assert dst[..][base..token] == old(dst[..])[base..token];
  }
}
