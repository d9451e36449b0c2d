/**
  The block decoder of lz4.c (LZ4_decompress_generic as LZ4_decompress_safe and LZ4_decompress_safe_usingDict call it: end on
  input size, full block, and no dictionary, one in front of the output, or one elsewhere). It copies 8 bytes at a time and
  may write past the end of what it means to write; it is proved to produce, for every input whatsoever, exactly what the
  plain decoder of Lz4Format produces, and to leave every byte outside the output buffer alone.
 */
module Lz4Decoder {
  import opened Wrappers
  import opened Bytes
  import opened Lz4Format
  import opened Lz4Memory
  import opened Lz4Dictionary

  // ---------------------------------------------------------------------------------------------
  // Overlapping matches
  // ---------------------------------------------------------------------------------------------

  /** Byte k of `s` is what an overlapping copy at distance `offset` puts there. */
  ghost predicate Periodic(s: seq<byte>, from: nat, to: nat, offset: nat)
    requires offset <= from && to <= |s|
  {
    forall k | from <= k < to :: s[k] == if offset == 0 then 0 else s[k - offset]
  }

  /** dec32table, the step taken after the first 4 bytes of a short-distance match. */
  function Dec32(offset: nat): (r: nat)
    requires offset < 8
  {
    [0, 1, 2, 1, 4, 4, 4, 4][offset]
  }

  /** dec64table, the step taken back after the first 8. */
  function Dec64(offset: nat): (r: int)
    requires offset < 8
  {
    [0, 0, 0, -1, 0, 1, 2, 3][offset]
  }

  /** The copy distance once the first 8 bytes are in place. */
  function Distance(offset: nat): (r: nat)
    ensures r >= 8 && r <= offset + 8
  {
    if offset >= 8 then offset else 8 - (Dec32(offset) - Dec64(offset) - offset)
  }

  /** For a short distance, the adjusted one is a multiple of it: a chain of equal bytes links the two. */
  lemma DistanceLinks(s: seq<byte>, op: nat, offset: nat, k: nat)
    requires offset <= op && op + 8 <= k < |s|
    requires Periodic(s, op, k, offset)
    requires s[k] == s[k - Distance(offset)]
    ensures s[k] == if offset == 0 then 0 else s[k - offset]
  {
    if offset == 0 {
      assert s[k - 8] == 0;
    } else if offset == 1 {
      assert s[k - 1] == s[k - 2] == s[k - 3] == s[k - 4] == s[k - 5] == s[k - 6] == s[k - 7] == s[k - 8];
    } else if offset == 2 {
      assert s[k - 2] == s[k - 4] == s[k - 6] == s[k - 8];
    } else if offset == 3 {
      assert s[k - 3] == s[k - 6] == s[k - 9];
    } else if offset == 4 {
      assert s[k - 4] == s[k - 8];
    } else if offset == 5 {
      assert s[k - 5] == s[k - 10];
    } else if offset == 6 {
      assert s[k - 6] == s[k - 12];
    } else if offset == 7 {
      assert s[k - 7] == s[k - 14];
    }
  }

  /** Eight bytes at the true distance, then any number at the adjusted one, are an overlapping copy. */
  lemma {:induction false} SpreadIsPeriodic(s: seq<byte>, op: nat, offset: nat, end: nat)
    requires offset <= op && op + 8 <= end <= |s|
    requires Periodic(s, op, op + 8, offset)
    requires forall k | op + 8 <= k < end :: s[k] == s[k - Distance(offset)]
    ensures Periodic(s, op, end, offset)
    decreases end
  {
    if end > op + 8 {
      SpreadIsPeriodic(s, op, offset, end - 1);
      DistanceLinks(s, op, offset, end - 1);
    }
  }

  /** The first 4 bytes of a match, one after the other. */
  method FirstFour(dst: array<byte>, op: nat, offset: nat)
    requires offset <= op && op + 4 <= dst.Length
    requires offset == 0 ==> dst[op] == dst[op + 1] == dst[op + 2] == dst[op + 3] == 0
    modifies dst
    ensures Periodic(dst[..], op, op + 4, offset)
    ensures SameOutside(dst, old(dst[..]), op, op + 4)
  {
    var match_ := op - offset;
    dst[op] := dst[match_];
    dst[op + 1] := dst[match_ + 1];
    dst[op + 2] := dst[match_ + 2];
    dst[op + 3] := dst[match_ + 3];
  }

  /** The first 8 bytes of a match: byte by byte and with the tables when the distance is below 8. */
  method FirstEight(dst: array<byte>, op: nat, offset: nat) returns (match_: nat)
    requires offset <= op && op + 8 <= dst.Length
    requires offset == 0 ==> dst[op] == dst[op + 1] == dst[op + 2] == dst[op + 3] == 0
    modifies dst
    ensures match_ == op + 8 - Distance(offset)
    ensures Periodic(dst[..], op, op + 8, offset)
    ensures SameOutside(dst, old(dst[..]), op, op + 8)
  {
    match_ := op - offset;
    if offset < 8 {
      FirstFour(dst, op, offset);
      ghost var mid := dst[..];
      match_ := match_ + Dec32(offset);
      CopyWithin(dst, op + 4, match_, 4);
      match_ := match_ - Dec64(offset);
      FirstEightPeriodic(mid, dst[..], op, offset);
    } else {
      CopyWithin(dst, op, match_, 8);
      match_ := match_ + 8;
    }
  }

  lemma FirstEightPeriodic(mid: seq<byte>, s: seq<byte>, op: nat, offset: nat)
    requires offset <= op && offset < 8 && op + 8 <= |s| == |mid|
    requires Periodic(mid, op, op + 4, offset)
    requires forall k | 0 <= k < op + 4 :: s[k] == mid[k]
    requires forall k | op + 4 <= k < op + 8 :: s[k] == s[k - (offset - Dec32(offset)) - 4]
    ensures Periodic(s, op, op + 8, offset)
  {
    if offset > 0 {
      var d := offset - Dec32(offset);
      assert s[op] == s[op - offset] && s[op + 1] == s[op + 1 - offset]
          && s[op + 2] == s[op + 2 - offset] && s[op + 3] == s[op + 3 - offset];
      assert s[op + 4] == s[op - d] && s[op + 5] == s[op + 1 - d]
          && s[op + 6] == s[op + 2 - d] && s[op + 7] == s[op + 3 - d];
      assert s[op + 4] == s[op + 4 - offset];
      assert s[op + 5] == s[op + 5 - offset];
      assert s[op + 6] == s[op + 6 - offset];
      assert s[op + 7] == s[op + 7 - offset];
    } else {
      assert mid[op] == mid[op + 1] == mid[op + 2] == mid[op + 3] == 0;
      assert s[op + 4] == s[op] && s[op + 5] == s[op + 1] && s[op + 6] == s[op + 2] && s[op + 7] == s[op + 3];
    }
  }

  /** The rest of a match when it ends within 12 bytes of the end of the output: wild copy as far as that is safe, then bytes. */
  method CopyTail(dst: array<byte>, op0: nat, match0: nat, cpy: nat, oend: nat)
    requires match0 + 8 <= op0 && op0 <= oend - 4 && 12 <= oend <= dst.Length
    requires oend - MFLIMIT < cpy <= oend - LASTLITERALS
    modifies dst
    ensures op0 <= cpy ==> Spread(dst, op0, cpy, op0 - match0)
    ensures SameOutside(dst, old(dst[..]), op0, oend)
  {
    var op, match_ := op0, match0;
    var oCopyLimit := oend - 7;
    if op < oCopyLimit {
      WildCopyWithin(dst, op, match_, oCopyLimit);
      match_ := match_ + (oCopyLimit - op);
      op := oCopyLimit;
    }
    while op < cpy
      invariant op0 <= op <= oend && op - match_ == op0 - match0
      invariant Spread(dst, op0, op, op0 - match0)
      invariant SameOutside(dst, old(dst[..]), op0, oend)
    {
      dst[op] := dst[match_];
      op, match_ := op + 1, match_ + 1;
    }
  }

  /**
    Copies a match of `length` bytes from `offset` bytes back; false when it would end in the last 5 bytes of the
    output. The bytes written are those of a copy that proceeds one byte at a time.
   */
  method CopyMatchInto(dst: array<byte>, op: nat, offset: nat, length: nat, oend: nat) returns (ok: bool)
    requires offset <= op && length >= MINMATCH && op + MFLIMIT <= oend <= dst.Length
    requires offset == 0 ==> dst[op] == dst[op + 1] == dst[op + 2] == dst[op + 3] == 0
    modifies dst
    ensures ok <==> op + length <= oend - LASTLITERALS
    ensures ok ==> dst[..op + length] == CopyMatch(old(dst[..op]), offset, length)
    ensures SameOutside(dst, old(dst[..]), op, oend)
  {
    var cpy := op + length;
    var match_ := FirstEight(dst, op, offset);
    ghost var first := dst[..];
    var op' := op + 8;
    ok := true;
    if cpy > oend - 12 {
      if cpy > oend - LASTLITERALS {
        ok := false;
      } else {
        CopyTail(dst, op', match_, cpy, oend);
      }
    } else {
      CopyWithin(dst, op', match_, 8);
      ghost var second := dst[..];
      if length > 16 {
        WildCopyWithin(dst, op' + 8, match_ + 8, cpy);
      }
    }
    if ok {
      MatchCopied(old(dst[..]), first, dst[..], op, offset, length);
    }
  }

  lemma MatchCopied(before: seq<byte>, first: seq<byte>, s: seq<byte>, op: nat, offset: nat, length: nat)
    requires offset <= op && op + 8 <= |s| && op + length <= |s| == |first| == |before|
    requires Periodic(first, op, op + 8, offset)
    requires forall k | 0 <= k < op :: first[k] == before[k]
    requires forall k | 0 <= k < op + 8 :: s[k] == first[k]
    requires forall k | op + 8 <= k < op + length :: s[k] == s[k - Distance(offset)]
    ensures s[..op + length] == CopyMatch(before[..op], offset, length)
  {
    hide CopyMatch, Distance;
    assert Periodic(s, op, op + 8, offset);
    if op + 8 <= op + length {
      SpreadIsPeriodic(s, op, offset, op + length);
    }
    var r := s[..op + length];
    assert r[..op] == before[..op];
    CopyMatchUnique(before[..op], offset, length, r);
  }

  // ---------------------------------------------------------------------------------------------
  // What is read of the input
  // ---------------------------------------------------------------------------------------------

  /** How many bytes are read before the end of the input is looked at: the token, and one more when it announces a long run. */
  function EagerReads(src: seq<byte>, inputSize: int, outputSize: int): (n: nat) {
    if outputSize == 0 then (if inputSize == 1 then 1 else 0)
    else if |src| > 0 && src[0] >= 240 then 2
    else 1
  }

  /** Nothing behind an input is read if and only if there is no room for output, or it is not that short. */
  lemma ReadsStayInside(src: seq<byte>, outputSize: int)
    ensures EagerReads(src, |src|, outputSize) <= |src| <==>
            outputSize == 0 || |src| >= 2 || (|src| == 1 && src[0] < 240)
  {
  }

  /** An empty input is read all the same. */
  lemma EmptyInputIsRead()
    ensures EagerReads([], 0, 1) == 1
  {
  }

  /** One byte that announces a long run of literals is read with the byte behind it. */
  lemma OneByteIsReadPast()
    ensures EagerReads([0xF0], 1, 1) == 2
  {
  }

  /** The position behind all that was read so far. */
  ghost function Reached(reach: nat, position: nat): (r: nat) {
    if position > reach then position else reach
  }

  // ---------------------------------------------------------------------------------------------
  // Length fields
  // ---------------------------------------------------------------------------------------------

  /** A length read from some position on, after `n` was already added up before it. */
  ghost function After(n: nat, r: Option<(nat, nat)>): Option<(nat, nat)> {
    match r
    case None => None
    case Some((m, next)) => Some((n + m, next))
  }

  lemma {:induction false} AfterReadExt(block: seq<byte>, ip: nat, n: nat)
    requires ip < |block|
    ensures block[ip] == 255 ==> After(n, ReadExt(block, ip)) == After(n + 255, ReadExt(block, ip + 1))
    ensures block[ip] < 255 ==> After(n, ReadExt(block, ip)) == Some((n + block[ip], ip + 1))
  {
  }

  /** The literal length that was read is the one in the block, or both it and the one in the block reach past its end. */
  ghost predicate LiteralLengthRead(block: seq<byte>, nibble: nat, ip0: nat, length: nat, ip: nat)
    requires nibble <= 15 && ip0 <= |block|
  {
    var r := ReadLength(block, nibble, ip0);
    r == Some((length, ip)) || (ip + length > |block| && (r.Some? ==> r.value.0 + r.value.1 > |block|))
  }

  /** Adds up a literal length; it gives up 15 bytes before the end of the input, where no valid length can still run on. */
  method ReadLiteralLength(src: seq<byte>, iend: int, nibble: nat, ip0: nat) returns (length: nat, ip: nat, ghost reach: nat)
    requires iend <= |src| && nibble <= 15 && ip0 <= |src| && (nibble == 15 ==> ip0 < |src|)
    ensures ip0 <= ip <= |src|
    ensures reach == (if nibble == 15 then ip else 0) && (nibble == 15 ==> ip0 < ip && (ip == ip0 + 1 || ip <= iend))
    ensures ip0 <= iend ==> LiteralLengthRead(src[..iend], nibble, ip0, length, ip)
  {
    length, ip, reach := nibble, ip0, 0;
    if nibble == RUN_MASK {
      ghost var block := if 0 <= iend then src[..iend] else [];
      var b := src[ip];
      reach := Reached(reach, ip + 1);
      ip := ip + 1;
      length := length + b;
      if ip0 < iend { AfterReadExt(block, ip0, 0); }
      while ip < iend - RUN_MASK && b == 255
        invariant ip0 < ip <= |src| && length - b >= 15 && reach == ip && (ip == ip0 + 1 || ip <= iend)
        invariant ip0 < iend && b == 255 ==> After(0, ReadExt(block, ip0)) == After(length - 15, ReadExt(block, ip))
        invariant ip0 < iend && b < 255 ==> After(0, ReadExt(block, ip0)) == Some((length - 15, ip))
      {
        AfterReadExt(block, ip, length - 15);
        b := src[ip];
        reach := Reached(reach, ip + 1);
        ip := ip + 1;
        length := length + b;
      }
    }
  }

  /** Adds up a match length; false when it would leave fewer than 5 bytes of input. */
  method ReadMatchLength(src: seq<byte>, iend: nat, nibble: nat, ip0: nat) returns (ok: bool, length: nat, ip: nat, ghost reach: nat)
    requires iend <= |src| && nibble <= 15 && ip0 <= iend - 6
    ensures ip0 <= ip <= iend && reach <= iend
    ensures ok ==> ReadLength(src[..iend], nibble, ip0) == Some((length, ip)) && ip <= iend - LASTLITERALS
    ensures !ok ==> var r := ReadLength(src[..iend], nibble, ip0); r.Some? ==> r.value.1 > iend - LASTLITERALS
  {
    ok, length, ip, reach := true, nibble, ip0, 0;
    if nibble == ML_MASK {
      ghost var block := src[..iend];
      var b := 255;
      while b == 255
        invariant ip0 <= ip <= iend - LASTLITERALS && length >= 15 && reach <= iend
        invariant b == 255 ==> After(0, ReadExt(block, ip0)) == After(length - 15, ReadExt(block, ip))
        invariant b != 255 ==> After(0, ReadExt(block, ip0)) == Some((length - 15, ip))
        decreases iend - ip, b
      {
        AfterReadExt(block, ip, length - 15);
        b := src[ip];
        reach := Reached(reach, ip + 1);
        ip := ip + 1;
        if ip > iend - LASTLITERALS {
          ok := false;
          return;
        }
        length := length + b;
      }
    }
  }

  // ---------------------------------------------------------------------------------------------
  // The plain decoder, step by step
  // ---------------------------------------------------------------------------------------------

  lemma DecodeAfterRun(block: seq<byte>, capacity: int, ip: nat, out: seq<byte>)
    requires ip < |block| && ReadRun(block, ip).Some?
    ensures var (literals, mid) := ReadRun(block, ip).value;
            && (mid == |block| ==>
                  Decode(block, capacity, ip, out) == if |out| + |literals| <= capacity then Some(out + literals) else None)
            && (mid < |block| && (|out| + |literals| > capacity - MFLIMIT || mid > |block| - 8) ==>
                  Decode(block, capacity, ip, out) == None)
  {
    hide ReadRun, ReadMatch, Apply;
  }

  lemma DecodeAfterMatch(block: seq<byte>, capacity: int, ip: nat, out: seq<byte>)
    requires ip < |block| && ReadRun(block, ip).Some?
    requires var (literals, mid) := ReadRun(block, ip).value; |out| + |literals| <= capacity - MFLIMIT && mid <= |block| - 8
    ensures var (literals, mid) := ReadRun(block, ip).value;
            match ReadMatch(block, block[ip] % 16, mid)
            case None => Decode(block, capacity, ip, out).None?
            case Some((offset, length, next)) =>
              Decode(block, capacity, ip, out) ==
              if offset <= |out| + |literals| && next <= |block| - LASTLITERALS && |out| + |literals| + length <= capacity - LASTLITERALS
              then Decode(block, capacity, next, CopyMatch(out + literals, offset, length)) else None
  {
    hide ReadRun, ReadMatch, CopyMatch;
  }

  // ---------------------------------------------------------------------------------------------
  // The decoder
  // ---------------------------------------------------------------------------------------------

  datatype Status = Failed | Finished | Matching

  /** One token and its literals: the last ones are copied exactly, others by steps of 8. */
  method DecodeLiterals(src: seq<byte>, dst: array<byte>, iend: int, oend: int, ip0: nat, op0: nat, ghost dict: seq<byte>)
    returns (status: Status, ip: nat, op: nat, ghost reach: nat)
    requires iend <= |src| && oend <= dst.Length && ip0 < |src| && op0 <= dst.Length
    requires src[ip0] >= 240 ==> ip0 + 1 < |src|
    requires ip0 == 0 || (ip0 < iend && op0 <= oend)
    modifies dst
    ensures ip0 < ip <= |src|
    ensures var eager := if src[ip0] >= 240 then ip0 + 2 else ip0 + 1; eager <= reach && (reach == eager || reach <= iend)
    ensures status != Failed ==> ip0 < iend && op0 <= op <= oend
    ensures status == Failed && ip0 < iend ==> Decode(src[..iend], |dict| + oend, ip0, dict + old(dst[..op0])).None?
    ensures status == Finished ==> Decode(src[..iend], |dict| + oend, ip0, dict + old(dst[..op0])) == Some(dict + dst[..op])
    ensures status == Matching ==> ip <= iend - 8 && op <= oend - MFLIMIT
    ensures status == Matching ==> ReadRun(src[..iend], ip0).Some? && ReadRun(src[..iend], ip0).value.1 == ip
    ensures status == Matching ==> dst[..op] == old(dst[..op0]) + ReadRun(src[..iend], ip0).value.0
    ensures SameOutside(dst, old(dst[..]), op0, oend)
  {
    var length;
    ghost var lengthReach;
    length, ip, lengthReach := ReadLiteralLength(src, iend, src[ip0] / 16, ip0 + 1);
    reach := Reached(ip0 + 1, lengthReach);
    op := op0;
    var cpy := op + length;
    if ip0 < iend {
      LiteralsRead(src, iend, |dict| + oend, ip0, dict + old(dst[..op0]), length, ip);
    }
    hide Decode, ReadRun, ReadLength, LiteralLengthRead;
    if cpy > oend - MFLIMIT || ip + length > iend - 8 {
      if ip + length != iend || cpy > oend {
        status := Failed;
      } else {
        CopyLiterals(src, dst, iend, oend, ip, op, length, true);
        Appended(dict, old(dst[..op0]), src[ip..ip + length]);
        reach := Reached(reach, ip + length);
        ip, op := ip + length, op + length;
        status := Finished;
      }
    } else {
      CopyLiterals(src, dst, iend, oend, ip, op, length, false);
      reach := Reached(reach, ip + WildLength(length));
      ip, op := ip + length, cpy;
      status := Matching;
    }
  }

  /** Copies literals: the last ones exactly, others by steps of 8, for which there is room. */
  method CopyLiterals(src: seq<byte>, dst: array<byte>, iend: nat, oend: nat, ip: nat, op: nat, length: nat, last: bool)
    requires iend <= |src| && oend <= dst.Length && ip + length <= iend && op + length <= oend
    requires !last ==> ip + length <= iend - 8 && op + length <= oend - MFLIMIT
    modifies dst
    ensures dst[..op + length] == old(dst[..op]) + src[ip..ip + length]
    ensures SameOutside(dst, old(dst[..]), op, oend)
    ensures !last ==> ip + WildLength(length) <= iend
  {
    if last {
      CopyIn(dst, op, src, ip, length);
    } else {
      WildCopyIn(dst, op, src, ip, op + length);
    }
  }

  /** What the plain decoder does at a token whose literal length was read. */
  lemma LiteralsRead(src: seq<byte>, iend: int, oend: int, ip0: nat, out: seq<byte>, length: nat, ip: nat)
    requires ip0 < iend <= |src| && ip0 < ip
    requires LiteralLengthRead(src[..iend], src[ip0] / 16, ip0 + 1, length, ip)
    ensures ip + length > iend ==> Decode(src[..iend], oend, ip0, out).None?
    ensures ip + length <= iend ==> ReadRun(src[..iend], ip0) == Some((src[ip..ip + length], ip + length))
    ensures ip + length == iend && |out| + length <= oend ==>
              Decode(src[..iend], oend, ip0, out) == Some(out + src[ip..ip + length])
    ensures ip + length == iend && |out| + length > oend ==> Decode(src[..iend], oend, ip0, out).None?
    ensures ip + length < iend && (|out| + length > oend - MFLIMIT || ip + length > iend - 8) ==>
              Decode(src[..iend], oend, ip0, out).None?
  {
    var block := src[..iend];
    if ip + length <= iend {
      assert block[ip..ip + length] == src[ip..ip + length];
      DecodeAfterRun(block, oend, ip0, out);
    } else {
      NoRun(block, oend, ip0, out);
    }
  }

  /**
    The offset and the match that follow the literals of the token at `ip0`; false when they are rejected. Behind a dictionary
    of 64 KB no offset is too large.
   */
  method DecodeMatch(src: seq<byte>, dst: array<byte>, iend: nat, oend: nat, token: byte, ip0: nat, op0: nat, dict: seq<byte>)
    returns (ok: bool, ip: nat, op: nat, ghost reach: nat)
    requires iend <= |src| && oend <= dst.Length && ip0 <= iend - 8 && op0 <= oend - MFLIMIT
    modifies dst
    ensures ip0 < ip <= iend && reach <= iend
    ensures SameOutside(dst, old(dst[..]), op0, oend)
    ensures var r := ReadMatch(src[..iend], token % 16, ip0);
            ok <==> r.Some? && r.value.0 <= |dict| + op0 && r.value.2 <= iend - LASTLITERALS && op0 + r.value.1 <= oend - LASTLITERALS
    ensures ok ==> var (offset, length, next) := ReadMatch(src[..iend], token % 16, ip0).value;
            ip == next && op == op0 + length && dict + dst[..op] == CopyMatch(dict + old(dst[..op0]), offset, length)
  {
    ghost var block := src[..iend];
    ip, op := ip0, op0;
    var offset := ReadLE(src, ip, 2);
    OffsetBound(src, ip);
    reach := ip + 2;
    ReadLEPrefix(src, iend, ip, 2);
    ip := ip + 2;
    if |dict| < WINDOW && offset > op + |dict| {
      ok := false;
      return;
    }
    Write32(dst, op, offset);
    assert dst[..op0] == old(dst[..op0]);
    var code;
    ghost var lengthReach;
    ok, code, ip, lengthReach := ReadMatchLength(src, iend, token % 16, ip);
    reach := Reached(reach, lengthReach);
    if ok {
      ok := CopyAnyMatch(dst, op, offset, code + MINMATCH, oend, dict);
      op := op + code + MINMATCH;
    }
  }

  /** A match from the dictionary or from the block. */
  method CopyAnyMatch(dst: array<byte>, op: nat, offset: nat, length: nat, oend: nat, dict: seq<byte>) returns (ok: bool)
    requires offset <= op + |dict| && length >= MINMATCH && op + MFLIMIT <= oend <= dst.Length
    requires offset == 0 ==> dst[op] == dst[op + 1] == dst[op + 2] == dst[op + 3] == 0
    modifies dst
    ensures ok <==> op + length <= oend - LASTLITERALS
    ensures ok ==> dict + dst[..op + length] == CopyMatch(dict + old(dst[..op]), offset, length)
    ensures SameOutside(dst, old(dst[..]), op, oend)
  {
    hide CopyMatch;
    if offset > op {
      ok := CopyFromDict(dst, op, offset, length, oend, dict);
    } else {
      ok := CopyMatchInto(dst, op, offset, length, oend);
      CopyBehind(dict, old(dst[..op]), offset, length);
    }
  }

  lemma OffsetBound(src: seq<byte>, ip: nat)
    requires ip + 2 <= |src|
    ensures ReadLE(src, ip, 2) < WINDOW
  {
    ReadLEBound(src, ip, 2);
    assert Pow256(2) == WINDOW;
  }

  /** What lies in front of the bytes that are copied does not matter. */
  lemma CopyBehind(dict: seq<byte>, out: seq<byte>, offset: nat, length: nat)
    requires offset <= |out|
    ensures CopyMatch(dict + out, offset, length) == dict + CopyMatch(out, offset, length)
  {
    var r := CopyMatch(out, offset, length);
    var all := dict + r;
    forall k | |dict + out| <= k < |all| ensures all[k] == if offset == 0 then 0 else all[k - offset] {
      CopyMatchPeriodic(out, offset, length, k - |dict|);
    }
    assert all[..|dict + out|] == dict + r[..|out|];
    CopyMatchUnique(dict + out, offset, length, all);
  }

  /**
    A match that begins in a dictionary elsewhere: from there, and as far as it goes on, from the start of the block. False when
    it would end in the last 5 bytes of the output.
   */
  method CopyFromDict(dst: array<byte>, op: nat, offset: nat, length: nat, oend: nat, dict: seq<byte>) returns (ok: bool)
    requires op < offset <= op + |dict| && op + MFLIMIT <= oend <= dst.Length
    modifies dst
    ensures ok <==> op + length <= oend - LASTLITERALS
    ensures ok ==> dict + dst[..op + length] == CopyMatch(dict + old(dst[..op]), offset, length)
    ensures SameOutside(dst, old(dst[..]), op, oend)
  {
    if op + length > oend - LASTLITERALS {
      return false;
    }
    ok := true;
    var copySize := offset - op;
    if length <= copySize {
      CopyIn(dst, op, dict, |dict| - copySize, length);
    } else {
      CopyIn(dst, op, dict, |dict| - copySize, copySize);
      ghost var first := dst[..];
      CopyFromStart(dst, op + copySize, length - copySize, oend);
      assert forall k | 0 <= k < op + copySize :: dst[k] == first[k];
    }
    DictCopied(old(dst[..]), dst[..], op, offset, length, dict);
  }

  /** The rest of the match, from the start of the block on: byte by byte when it runs into itself. */
  method CopyFromStart(dst: array<byte>, op0: nat, rest: nat, oend: nat)
    requires 0 < op0 && op0 + rest <= oend <= dst.Length
    modifies dst
    ensures Spread(dst, op0, op0 + rest, op0)
    ensures SameOutside(dst, old(dst[..]), op0, op0 + rest)
  {
    if rest > op0 {
      var op, copyFrom := op0, 0;
      while op < op0 + rest
        invariant op0 <= op <= op0 + rest && copyFrom == op - op0
        invariant Spread(dst, op0, op, op0) && SameOutside(dst, old(dst[..]), op0, op)
      {
        dst[op] := dst[copyFrom];
        op, copyFrom := op + 1, copyFrom + 1;
      }
    } else {
      CopyWithin(dst, op0, 0, rest);
    }
  }

  lemma DictCopied(before: seq<byte>, s: seq<byte>, op: nat, offset: nat, length: nat, dict: seq<byte>)
    requires op < offset <= op + |dict| && op + length <= |s| == |before|
    requires forall k | 0 <= k < op :: s[k] == before[k]
    requires forall k | op <= k < op + length && k < offset :: s[k] == dict[|dict| + k - offset]
    requires forall k | offset <= k < op + length :: s[k] == s[k - offset]
    ensures dict + s[..op + length] == CopyMatch(dict + before[..op], offset, length)
  {
    hide CopyMatch;
    var r := dict + s[..op + length];
    assert r[..|dict| + op] == dict + before[..op];
    CopyMatchUnique(dict + before[..op], offset, length, r);
  }

  /** One turn of the main loop: a whole sequence, or the last literals. */
  method DecodeOne(src: seq<byte>, dst: array<byte>, iend: int, oend: int, ip0: nat, op0: nat, dict: seq<byte>)
    returns (status: Status, ip: nat, op: nat, ghost reach: nat)
    requires iend <= |src| && oend <= dst.Length && ip0 < |src| && op0 <= dst.Length
    requires src[ip0] >= 240 ==> ip0 + 1 < |src|
    requires ip0 == 0 || (ip0 < iend && op0 <= oend)
    modifies dst
    ensures ip0 < ip <= |src| && SameOutside(dst, old(dst[..]), op0, oend)
    ensures var eager := if src[ip0] >= 240 then ip0 + 2 else ip0 + 1; eager <= reach && (reach == eager || reach <= iend)
    ensures status != Failed ==> ip0 < iend && op0 <= op <= oend
    ensures status == Failed && ip0 < iend ==> Decode(src[..iend], |dict| + oend, ip0, dict + old(dst[..op0])).None?
    ensures status == Finished ==> Decode(src[..iend], |dict| + oend, ip0, dict + old(dst[..op0])) == Some(dict + dst[..op])
    ensures status == Matching ==> ip <= iend - LASTLITERALS && reach <= iend
    ensures status == Matching ==> Decode(src[..iend], |dict| + oend, ip0, dict + old(dst[..op0])) ==
                                   Decode(src[..iend], |dict| + oend, ip, dict + dst[..op])
  {
    hide Decode, ReadRun, ReadMatch, CopyMatch;
    ghost var out := dst[..op0];
    status, ip, op, reach := DecodeLiterals(src, dst, iend, oend, ip0, op0, dict);
    if status == Matching {
      DecodeAfterMatch(src[..iend], |dict| + oend, ip0, dict + out);
      Appended(dict, out, ReadRun(src[..iend], ip0).value.0);
      var ok;
      ghost var read;
      ok, ip, op, read := DecodeMatch(src, dst, iend, oend, src[ip0], ip, op, dict);
      reach := Reached(reach, read);
      if !ok { status := Failed; }
    }
  }

  lemma EagerIsToken(src: seq<byte>, inputSize: int, outputSize: int)
    requires outputSize != 0
    ensures EagerReads(src, inputSize, outputSize) == if |src| > 0 && src[0] >= 240 then 2 else 1
  {
  }

  lemma NothingChanged(a: array<byte>, from: int, to: int)
    ensures SameOutside(a, a[..], from, to)
  {
  }

  lemma KnownOutside(a: array<byte>, before: seq<byte>, from: int, to: int)
    requires SameOutside(a, before, from, to)
    ensures |before| == a.Length && forall k | 0 <= k < |before| && !(from <= k < to) :: a[..][k] == before[k]
  {
  }

  lemma ChangedInside(a: array<byte>, first: seq<byte>, second: seq<byte>, from: int, mid: int, to: int)
    requires |first| == |second| && from <= mid && SameOutside(a, second, mid, to)
    requires forall k | 0 <= k < |first| && !(from <= k < to) :: second[k] == first[k]
    ensures SameOutside(a, first, from, to)
  {
  }

  /**
    LZ4_decompress_generic for a block that goes to dst[base..]. Its history is what lies in front of it in dst, or `dict` if
    there is nothing. The result is the number of bytes decoded, or negative. `reach` is the position behind all that was read
    of the input, and what is read before its end is looked at must be readable. Beyond that nothing behind the input is read.
   */
  method DecompressGeneric(src: seq<byte>, dst: array<byte>, base: nat, inputSize: int, outputSize: int, dict: seq<byte>)
    returns (r: int, ghost reach: nat)
    requires inputSize <= |src| && base <= dst.Length && base + outputSize <= dst.Length && outputSize != 0
    requires EagerReads(src, inputSize, outputSize) <= |src|
    modifies dst
    ensures r >= 0 <==> inputSize >= 0 && Decode(src[..inputSize], |dict| + base + outputSize, 0, dict + old(dst[..base])).Some?
    ensures r >= 0 ==> r <= outputSize
    ensures r >= 0 ==> Decode(src[..inputSize], |dict| + base + outputSize, 0, dict + old(dst[..base])) == Some(dict + dst[..base + r])
    ensures SameOutside(dst, old(dst[..]), base, base + outputSize)
    ensures reach <= inputSize || reach == EagerReads(src, inputSize, outputSize)
    ensures EagerReads(src, inputSize, outputSize) <= reach
  {
    hide Decode, EagerReads, SameOutside;
    var iend, oend := inputSize, base + outputSize;
    var ip, op := 0, base;
    EagerIsToken(src, inputSize, outputSize);
    NothingChanged(dst, base, oend);
    if iend == 0 { AtEnd(src[..0], |dict| + oend, dict + dst[..base]); }
    ghost var eager := EagerReads(src, inputSize, outputSize);
    ghost var whole := if iend >= 0 then Decode(src[..iend], |dict| + oend, 0, dict + dst[..base]) else None;
    reach := 0;
    while true
      invariant (ip == 0 && op == base && reach == 0) || (0 < ip <= iend - LASTLITERALS && base <= op <= oend && eager <= reach <= iend)
      invariant iend >= 0 ==> whole == Decode(src[..iend], |dict| + oend, ip, dict + dst[..op])
      invariant SameOutside(dst, old(dst[..]), base, oend)
      decreases |src| - ip
    {
      var status;
      ghost var read, before, op0 := 0, dst[..], op;
      KnownOutside(dst, old(dst[..]), base, oend);
      status, ip, op, read := DecodeOne(src, dst, iend, oend, ip, op, dict);
      ChangedInside(dst, old(dst[..]), before, base, op0, oend);
      reach := Reached(reach, read);
      if status == Failed {
        r := -ip - 1;
        return;
      } else if status == Finished {
        r := op - base;
        return;
      }
    }
  }

  /** LZ4_decompress_safe: a block without history. Into no room at all only the block 0 goes. */
  method Decompress(src: seq<byte>, dst: array<byte>, inputSize: int, outputSize: int) returns (r: int, ghost reach: nat)
    requires inputSize <= |src| && outputSize <= dst.Length && EagerReads(src, inputSize, outputSize) <= |src|
    modifies dst
    ensures r >= 0 <==> inputSize >= 0 && DecodeBlock(src[..inputSize], outputSize).Some?
    ensures r >= 0 ==> r <= outputSize && Some(dst[..r]) == DecodeBlock(src[..inputSize], outputSize)
    ensures SameOutside(dst, old(dst[..]), 0, outputSize)
    ensures reach <= inputSize || reach == EagerReads(src, inputSize, outputSize)
    ensures EagerReads(src, inputSize, outputSize) <= reach
  {
    hide Decode;
    if outputSize == 0 {
      reach := 0;
      r := -1;
      if inputSize == 1 {
        reach := 1;
        if src[0] == 0 {
          r := 0;
        }
      }
      assert inputSize == 1 && src[0] == 0 ==> src[..inputSize] == [0];
      return;
    }
    assert [] + dst[..0] == [];
    r, reach := DecompressGeneric(src, dst, 0, inputSize, outputSize, []);
    if r >= 0 { assert [] + dst[..r] == dst[..r]; }
  }

  /**
    LZ4_decompress_safe_usingDict: the dictionary lies in front of the output, in which case it is dst[..base], or elsewhere. In
    front of the output no more than 64 KB of it are looked at, which no offset exceeds.
   */
  method DecompressUsingDict(src: seq<byte>, dst: array<byte>, base: nat, inputSize: nat, outputSize: nat, dict: seq<byte>)
    returns (r: int, ghost reach: nat)
    requires inputSize <= |src| && base + outputSize <= dst.Length && outputSize > 0 && (base == 0 || dst[..base] == dict)
    requires EagerReads(src, inputSize, outputSize) <= |src|
    modifies dst
    ensures r >= 0 <==> DecodeWith(dict, src[..inputSize], outputSize).Some?
    ensures r >= 0 ==> r <= outputSize && DecodeWith(dict, src[..inputSize], outputSize) == Some(dst[base..base + r])
    ensures SameOutside(dst, old(dst[..]), base, base + outputSize)
    ensures reach <= inputSize || reach == EagerReads(src, inputSize, outputSize)
    ensures EagerReads(src, inputSize, outputSize) <= reach
  {
    hide Decode;
    var elsewhere := if base == 0 then dict else [];
    ghost var before := elsewhere + dst[..base];
    assert before == dict;
    r, reach := DecompressGeneric(src, dst, base, inputSize, outputSize, elsewhere);
    if r >= 0 {
      ghost var out := elsewhere + dst[..base + r];
      assert out[|dict|..] == dst[base..base + r];
    }
    DecodeExtends(src[..inputSize], |dict| + outputSize, 0, dict);
  }

  /** What a block decodes to begins with its history. */
  lemma {:induction false} DecodeExtends(block: seq<byte>, capacity: int, ip: nat, out: seq<byte>)
    requires ip <= |block|
    ensures Decode(block, capacity, ip, out).Some? ==> |out| <= |Decode(block, capacity, ip, out).value|
  {
    hide Decode, ReadRun, ReadMatch, CopyMatch;
    var x := AgreeDecode(out, out, block, capacity - |out|, ip);
  }
}
