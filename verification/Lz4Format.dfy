/**
  The LZ4 Block Format: what a block means, how it is laid out in bytes, and a plain one-byte-at-a-time
  decoder for it. The encoder and the decoder of lz4.c are both proved against this module.
 */
module Lz4Format {
  import opened Wrappers
  import opened Bytes

  const MINMATCH := 4
  const LASTLITERALS := 5
  const MFLIMIT := 12
  const ML_MASK := 15
  const RUN_MASK := 15
  const MAX_DISTANCE := 65535

  /** One sequence: literals, then a match of `matchLength` bytes that starts `offset` bytes back. */
  datatype Sequence = Sequence(literals: seq<byte>, offset: nat, matchLength: nat)

  // ---------------------------------------------------------------------------------------------
  // Meaning
  // ---------------------------------------------------------------------------------------------

  /** The byte an overlapping copy at distance `offset` appends next. Distance 0 yields zero bytes, as in lz4.c. */
  function MatchByte(out: seq<byte>, offset: nat): (b: byte) {
    if 0 < offset <= |out| then out[|out| - offset] else 0
  }

  /** Appends `length` bytes, each the one `offset` positions back at the time it is appended. */
  function CopyMatch(out: seq<byte>, offset: nat, length: nat): (r: seq<byte>)
    ensures |r| == |out| + length
    ensures r[..|out|] == out
    decreases length
  {
    if length == 0 then out else CopyMatch(out + [MatchByte(out, offset)], offset, length - 1)
  }

  /** The output after sequence `s` is applied to `out`. */
  function Apply(out: seq<byte>, s: Sequence): (r: seq<byte>)
    ensures |r| == |out| + |s.literals| + s.matchLength
  {
    CopyMatch(out + s.literals, s.offset, s.matchLength)
  }

  /** The output after all of `sequences`, first to last. */
  function Run(sequences: seq<Sequence>, out: seq<byte>): (r: seq<byte>)
    ensures |r| >= |out|
  {
    if sequences == [] then out else Run(sequences[1..], Apply(out, sequences[0]))
  }

  lemma {:induction false} RunSnoc(sequences: seq<Sequence>, s: Sequence, out: seq<byte>)
    ensures Run(sequences + [s], out) == Apply(Run(sequences, out), s)
    decreases |sequences|
  {
    if sequences == [] {
      assert (sequences + [s])[1..] == [];
    } else {
      assert (sequences + [s])[1..] == sequences[1..] + [s];
      RunSnoc(sequences[1..], s, Apply(out, sequences[0]));
    }
  }

  /** In an overlapping copy every appended byte equals the one `offset` back in the final output. */
  lemma {:induction false} CopyMatchPeriodic(out: seq<byte>, offset: nat, length: nat, k: nat)
    requires offset <= |out| <= k < |out| + length
    ensures CopyMatch(out, offset, length)[k] == if offset == 0 then 0 else CopyMatch(out, offset, length)[k - offset]
    decreases length
  {
    var out' := out + [MatchByte(out, offset)];
    var r := CopyMatch(out', offset, length - 1);
    assert forall i | 0 <= i < |out'| :: r[i] == r[..|out'|][i];
    if k > |out| {
      CopyMatchPeriodic(out', offset, length - 1, k);
    }
  }

  /** The periodic recurrence determines the copy. */
  lemma {:induction false} CopyMatchUnique(out: seq<byte>, offset: nat, length: nat, r: seq<byte>)
    requires offset <= |out| && |r| == |out| + length && r[..|out|] == out
    requires forall k | |out| <= k < |r| :: r[k] == if offset == 0 then 0 else r[k - offset]
    ensures r == CopyMatch(out, offset, length)
    decreases length
  {
    if length > 0 {
      var out' := out + [MatchByte(out, offset)];
      assert r[|out|] == MatchByte(out, offset) by {
        if offset > 0 { assert r[|out| - offset] == r[..|out|][|out| - offset]; }
      }
      assert r[..|out'|] == r[..|out|] + [r[|out|]];
      CopyMatchUnique(out', offset, length - 1, r);
    } else {
      assert r == r[..|out|];
    }
  }

  // ---------------------------------------------------------------------------------------------
  // Layout in bytes
  // ---------------------------------------------------------------------------------------------

  function Nibble(n: nat): (r: nat)
    ensures r <= 15 && (r == 15 <==> n >= 15)
  {
    if n < 15 then n else 15
  }

  /** A run of 255s closed by a smaller byte; together they add up to `n`. */
  function ExtBytes(n: nat): (r: seq<byte>)
    ensures |r| == n / 255 + 1
  {
    if n < 255 then [n] else [255] + ExtBytes(n - 255)
  }

  /** The bytes that follow a length field whose nibble is saturated. */
  function Ext(n: nat): (r: seq<byte>)
    ensures |r| == if n < 15 then 0 else (n - 15) / 255 + 1
  {
    if n < 15 then [] else ExtBytes(n - 15)
  }

  /** A token with `low` in its low nibble, then a run of literals. */
  function EncodeRun(literals: seq<byte>, low: nat): (r: seq<byte>)
    requires low <= 15
    ensures |r| == 1 + |Ext(|literals|)| + |literals|
  {
    [16 * Nibble(|literals|) + low] + Ext(|literals|) + literals
  }

  /** An offset and a match length. */
  function EncodeMatch(offset: nat, matchLength: nat): (r: seq<byte>)
    requires matchLength >= MINMATCH
    ensures |r| == 2 + |Ext(matchLength - MINMATCH)|
  {
    WriteLE(offset, 2) + Ext(matchLength - MINMATCH)
  }

  ghost predicate Representable(s: Sequence) {
    s.offset < 65536 && s.matchLength >= MINMATCH
  }

  function EncodeSequence(s: Sequence): (r: seq<byte>)
    requires Representable(s)
    ensures |r| == 3 + |Ext(|s.literals|)| + |s.literals| + |Ext(s.matchLength - MINMATCH)|
  {
    EncodeRun(s.literals, Nibble(s.matchLength - MINMATCH)) + EncodeMatch(s.offset, s.matchLength)
  }

  ghost predicate AllRepresentable(sequences: seq<Sequence>) {
    forall s | s in sequences :: Representable(s)
  }

  function EncodeSequences(sequences: seq<Sequence>): (r: seq<byte>)
    requires AllRepresentable(sequences)
  {
    if sequences == [] then [] else EncodeSequence(sequences[0]) + EncodeSequences(sequences[1..])
  }

  /** The bytes of a whole block: the sequences, then the final run of literals, whose low nibble means nothing. */
  function EncodeBlock(sequences: seq<Sequence>, last: seq<byte>, low: nat): (r: seq<byte>)
    requires AllRepresentable(sequences) && low <= 15
  {
    EncodeSequences(sequences) + EncodeRun(last, low)
  }

  lemma {:induction false} EncodeSnoc(sequences: seq<Sequence>, s: Sequence)
    requires AllRepresentable(sequences) && Representable(s)
    ensures AllRepresentable(sequences + [s])
    ensures EncodeSequences(sequences + [s]) == EncodeSequences(sequences) + EncodeSequence(s)
    decreases |sequences|
  {
    if sequences == [] {
      assert (sequences + [s])[1..] == [];
    } else {
      assert (sequences + [s])[1..] == sequences[1..] + [s];
      EncodeSnoc(sequences[1..], s);
    }
  }

  // ---------------------------------------------------------------------------------------------
  // The plain decoder
  // ---------------------------------------------------------------------------------------------

  /** Reads a run of 255s and the byte that closes it; the sum and the position after it. */
  function ReadExt(block: seq<byte>, ip: nat): (r: Option<(nat, nat)>)
    ensures r.Some? ==> ip < r.value.1 <= |block|
    decreases |block| - ip
  {
    if ip >= |block| then None
    else if block[ip] < 255 then Some((block[ip] as nat, ip + 1))
    else match ReadExt(block, ip + 1)
      case None => None
      case Some((n, next)) => Some((n + 255, next))
  }

  /** Reads a length field: its nibble, extended by further bytes when the nibble is saturated. */
  function ReadLength(block: seq<byte>, nibble: nat, ip: nat): (r: Option<(nat, nat)>)
    requires nibble <= 15 && ip <= |block|
    ensures r.Some? ==> ip <= r.value.1 <= |block|
  {
    if nibble < 15 then Some((nibble, ip))
    else match ReadExt(block, ip)
      case None => None
      case Some((n, next)) => Some((15 + n, next))
  }

  /** The literals at a token, and the position after them. */
  function ReadRun(block: seq<byte>, ip: nat): (r: Option<(seq<byte>, nat)>)
    requires ip < |block|
    ensures r.Some? ==> ip < r.value.1 <= |block|
  {
    match ReadLength(block, block[ip] / 16, ip + 1)
    case None => None
    case Some((n, next)) => if next + n <= |block| then Some((block[next..next + n], next + n)) else None
  }

  /** The offset and match length at `ip`, and the position after them. */
  function ReadMatch(block: seq<byte>, nibble: nat, ip: nat): (r: Option<(nat, nat, nat)>)
    requires nibble <= 15
    ensures r.Some? ==> ip + 2 <= r.value.2 <= |block| && r.value.0 < 65536 && r.value.1 >= MINMATCH
  {
    if ip + 2 > |block| then None
    else match ReadLength(block, nibble, ip + 2)
      case None => None
      case Some((n, next)) =>
        ReadLEBound(block, ip, 2);
        assert Pow256(2) == 65536;
        Some((ReadLE(block, ip, 2), n + MINMATCH, next))
  }

  /** A sequence copies only what was produced and leaves the required output room. */
  predicate Roomy(s: Sequence, start: nat, capacity: int) {
    && s.offset <= start + |s.literals|
    && start + |s.literals| <= capacity - MFLIMIT
    && start + |s.literals| + s.matchLength <= capacity - LASTLITERALS
  }

  /**
    Decodes `block` from position `ip`, with `out` already produced, into at most `capacity` bytes. A
    sequence that is not the last one must leave 12 bytes of output room after its literals, 5 after its
    match, 8 bytes of input after its literals and 5 after its match length.
   */
  function Decode(block: seq<byte>, capacity: int, ip: nat, out: seq<byte>): (r: Option<seq<byte>>)
    requires ip <= |block|
    ensures r.Some? ==> |r.value| <= capacity
    decreases |block| - ip
  {
    if ip == |block| then None
    else match ReadRun(block, ip)
      case None => None
      case Some((literals, mid)) =>
        if mid == |block| then
          if |out| + |literals| <= capacity then Some(out + literals) else None
        else match ReadMatch(block, block[ip] % 16, mid)
          case None => None
          case Some((offset, matchLength, next)) =>
            var s := Sequence(literals, offset, matchLength);
            if Roomy(s, |out|, capacity) && mid <= |block| - 8 && next <= |block| - LASTLITERALS
            then Decode(block, capacity, next, Apply(out, s))
            else None
  }

  /**
    What a block decodes to in a buffer of `capacity` bytes, or None when it is rejected. Into an empty buffer only
    the one-byte block 0 decodes, although the low nibble of its token means nothing elsewhere.
   */
  function DecodeBlock(block: seq<byte>, capacity: int): (r: Option<seq<byte>>)
    ensures r.Some? ==> |r.value| <= capacity
  {
    if capacity == 0 then (if block == [0] then Some([]) else None) else Decode(block, capacity, 0, [])
  }

  // ---------------------------------------------------------------------------------------------
  // Layout and parsing are inverse
  // ---------------------------------------------------------------------------------------------

  lemma {:induction false} ExtBytesRead(n: nat, block: seq<byte>, ip: nat)
    requires At(block, ip, ExtBytes(n))
    ensures ReadExt(block, ip) == Some((n, ip + |ExtBytes(n)|))
    decreases n
  {
    if n < 255 {
      AtByte(block, ip, n);
    } else {
      AtConcat(block, ip, [255], ExtBytes(n - 255));
      AtByte(block, ip, 255);
      ExtBytesRead(n - 255, block, ip + 1);
    }
  }

  lemma {:induction false} ReadExtCanonical(block: seq<byte>, ip: nat)
    requires ReadExt(block, ip).Some?
    ensures var (n, next) := ReadExt(block, ip).value; At(block, ip, ExtBytes(n)) && next == ip + |ExtBytes(n)|
    decreases |block| - ip
  {
    if block[ip] < 255 {
      AtByte(block, ip, block[ip]);
    } else {
      ReadExtCanonical(block, ip + 1);
      AtByte(block, ip, 255);
      AtConcat(block, ip, [255], ExtBytes(ReadExt(block, ip + 1).value.0));
    }
  }

  /** A length field reads back, and only its canonical form does. */
  lemma LengthRoundTrip(block: seq<byte>, ip: nat, n: nat, nibble: nat)
    requires ip <= |block| && nibble <= 15
    ensures nibble == Nibble(n) && At(block, ip, Ext(n)) <==> ReadLength(block, nibble, ip) == Some((n, ip + |Ext(n)|))
  {
    if n >= 15 && At(block, ip, Ext(n)) {
      ExtBytesRead(n - 15, block, ip);
    }
    if nibble == 15 && ReadLength(block, nibble, ip).Some? {
      ReadExtCanonical(block, ip);
    }
  }

  lemma LengthNext(block: seq<byte>, ip: nat, nibble: nat)
    requires ip <= |block| && nibble <= 15 && ReadLength(block, nibble, ip).Some?
    ensures var (n, next) := ReadLength(block, nibble, ip).value; next == ip + |Ext(n)|
  {
    if nibble == 15 {
      ReadExtCanonical(block, ip);
    }
  }

  lemma RunLayout(block: seq<byte>, ip: nat, literals: seq<byte>, low: nat)
    requires low <= 15
    ensures At(block, ip, EncodeRun(literals, low)) <==>
            && ip < |block| && block[ip] == 16 * Nibble(|literals|) + low
            && At(block, ip + 1, Ext(|literals|))
            && At(block, ip + 1 + |Ext(|literals|)|, literals)
  {
    var token := [16 * Nibble(|literals|) + low];
    AtConcat(block, ip, token, Ext(|literals|));
    AtConcat(block, ip, token + Ext(|literals|), literals);
    AtByte(block, ip, 16 * Nibble(|literals|) + low);
  }

  /** A run of literals reads back from its layout. */
  lemma RunReads(block: seq<byte>, ip: nat, literals: seq<byte>, low: nat)
    requires low <= 15 && At(block, ip, EncodeRun(literals, low))
    ensures ip < |block| && block[ip] % 16 == low
    ensures ReadRun(block, ip) == Some((literals, ip + |EncodeRun(literals, low)|))
  {
    RunLayout(block, ip, literals, low);
    LengthRoundTrip(block, ip + 1, |literals|, Nibble(|literals|));
  }

  /** Whatever reads as a run of literals is laid out as one. */
  lemma RunCanonical(block: seq<byte>, ip: nat)
    requires ip < |block| && ReadRun(block, ip).Some?
    ensures var (literals, next) := ReadRun(block, ip).value;
            var e := EncodeRun(literals, block[ip] % 16);
            At(block, ip, e) && next == ip + |e|
  {
    var (n, i1) := ReadLength(block, block[ip] / 16, ip + 1).value;
    var literals := block[i1..i1 + n];
    assert |literals| == n;
    assert i1 == ip + 1 + |Ext(n)| by { LengthNext(block, ip + 1, block[ip] / 16); }
    assert Nibble(n) == block[ip] / 16 && At(block, ip + 1, Ext(n)) by {
      LengthRoundTrip(block, ip + 1, n, block[ip] / 16);
    }
    RunLayout(block, ip, literals, block[ip] % 16);
  }

  /** An offset and a match length read back from their layout. */
  lemma MatchReads(block: seq<byte>, ip: nat, offset: nat, matchLength: nat)
    requires offset < 65536 && matchLength >= MINMATCH && At(block, ip, EncodeMatch(offset, matchLength))
    ensures ReadMatch(block, Nibble(matchLength - MINMATCH), ip)
         == Some((offset, matchLength, ip + |EncodeMatch(offset, matchLength)|))
  {
    AtConcat(block, ip, WriteLE(offset, 2), Ext(matchLength - MINMATCH));
    ReadWriteLE(offset, 2, block, ip) by { assert Pow256(2) == 65536; }
    LengthRoundTrip(block, ip + 2, matchLength - MINMATCH, Nibble(matchLength - MINMATCH));
  }

  lemma MatchCanonical(block: seq<byte>, ip: nat, nibble: nat)
    requires nibble <= 15 && ReadMatch(block, nibble, ip).Some?
    ensures var (offset, matchLength, next) := ReadMatch(block, nibble, ip).value;
            var e := EncodeMatch(offset, matchLength);
            nibble == Nibble(matchLength - MINMATCH) && At(block, ip, e) && next == ip + |e|
  {
    var (n, next) := ReadLength(block, nibble, ip + 2).value;
    LengthNext(block, ip + 2, nibble);
    LengthRoundTrip(block, ip + 2, n, nibble);
    ReadLECanonical(block, ip, 2);
    AtConcat(block, ip, WriteLE(ReadLE(block, ip, 2), 2), Ext(n));
  }

  // ---------------------------------------------------------------------------------------------
  // The decoder accepts exactly the encodings that leave the required room, and recovers their meaning
  // ---------------------------------------------------------------------------------------------

  /** The room each sequence must leave, with `start` bytes of output before the first one. */
  ghost predicate Fits(sequences: seq<Sequence>, last: seq<byte>, start: nat, capacity: int) {
    if sequences == [] then start + |last| <= capacity
    else
      var s := sequences[0];
      && AllRepresentable(sequences)
      && Representable(s)
      && Roomy(s, start, capacity)
      && |Ext(s.matchLength - MINMATCH)| + |EncodeBlock(sequences[1..], last, 0)| >= 6
      && |EncodeBlock(sequences[1..], last, 0)| >= LASTLITERALS
      && Fits(sequences[1..], last, start + |s.literals| + s.matchLength, capacity)
  }

  /** One step of the plain decoder over an encoded sequence. */
  lemma DecodeSequence(s: Sequence, capacity: int, block: seq<byte>, ip: nat, out: seq<byte>)
    requires Representable(s) && At(block, ip, EncodeSequence(s)) && Roomy(s, |out|, capacity)
    requires ip + |EncodeSequence(s)| <= |block| - LASTLITERALS
    requires ip + |EncodeSequence(s)| <= |block| - 6 + |Ext(s.matchLength - MINMATCH)|
    ensures Decode(block, capacity, ip, out) == Decode(block, capacity, ip + |EncodeSequence(s)|, Apply(out, s))
  {
    hide ReadRun, ReadMatch, EncodeRun, EncodeMatch, Ext, Apply, At, Nibble;
    var run := EncodeRun(s.literals, Nibble(s.matchLength - MINMATCH));
    AtConcat(block, ip, run, EncodeMatch(s.offset, s.matchLength));
    RunReads(block, ip, s.literals, Nibble(s.matchLength - MINMATCH));
    MatchReads(block, ip + |run|, s.offset, s.matchLength);
  }

  lemma DecodeFinal(last: seq<byte>, low: nat, capacity: int, block: seq<byte>, ip: nat, out: seq<byte>)
    requires low <= 15 && |out| + |last| <= capacity
    requires At(block, ip, EncodeRun(last, low)) && ip + |EncodeRun(last, low)| == |block|
    ensures Decode(block, capacity, ip, out) == Some(out + last)
  {
    hide ReadRun, ReadMatch, EncodeRun, Apply, At;
    RunReads(block, ip, last, low);
  }

  /** The layout of a block that starts with sequence `s`. */
  lemma BlockCons(s: Sequence, more: seq<Sequence>, last: seq<byte>, low: nat, block: seq<byte>, ip: nat)
    requires Representable(s) && AllRepresentable(more) && low <= 15
    ensures AllRepresentable([s] + more)
    ensures var next := ip + |EncodeSequence(s)|;
            At(block, ip, EncodeBlock([s] + more, last, low)) <==>
            At(block, ip, EncodeSequence(s)) && At(block, next, EncodeBlock(more, last, low))
    ensures |EncodeBlock([s] + more, last, low)| == |EncodeSequence(s)| + |EncodeBlock(more, last, 0)|
  {
    hide EncodeRun, EncodeSequence, At;
    var all := [s] + more;
    assert all[0] == s && all[1..] == more;
    assert EncodeBlock(all, last, low) == EncodeSequence(s) + EncodeBlock(more, last, low);
    AtConcat(block, ip, EncodeSequence(s), EncodeBlock(more, last, low));
  }

  lemma FitsCons(s: Sequence, more: seq<Sequence>, last: seq<byte>, start: nat, capacity: int)
    requires Representable(s) && AllRepresentable(more)
    ensures Fits([s] + more, last, start, capacity) <==>
            && Roomy(s, start, capacity)
            && |Ext(s.matchLength - MINMATCH)| + |EncodeBlock(more, last, 0)| >= 6
            && |EncodeBlock(more, last, 0)| >= LASTLITERALS
            && Fits(more, last, start + |s.literals| + s.matchLength, capacity)
  {
    hide EncodeBlock, Roomy, Ext;
    var all := [s] + more;
    assert all[0] == s && all[1..] == more;
  }

  /** Completeness: a block that leaves the required room decodes to its meaning. */
  lemma {:induction false} DecodeComplete(sequences: seq<Sequence>, last: seq<byte>, low: nat, capacity: int,
                                          block: seq<byte>, ip: nat, out: seq<byte>)
    requires Fits(sequences, last, |out|, capacity) && AllRepresentable(sequences) && low <= 15
    requires At(block, ip, EncodeBlock(sequences, last, low)) && ip + |EncodeBlock(sequences, last, low)| == |block|
    ensures ip <= |block| && Decode(block, capacity, ip, out) == Some(Run(sequences, out) + last)
    decreases |sequences|
  {
    hide Decode, EncodeRun, EncodeSequence, Ext, At, Apply, Roomy;
    if sequences == [] {
      assert EncodeBlock(sequences, last, low) == EncodeRun(last, low);
      DecodeFinal(last, low, capacity, block, ip, out);
    } else {
      var s, more := sequences[0], sequences[1..];
      assert sequences == [s] + more;
      BlockCons(s, more, last, low, block, ip);
      FitsCons(s, more, last, |out|, capacity);
      DecodeSequence(s, capacity, block, ip, out);
      DecodeComplete(more, last, low, capacity, block, ip + |EncodeSequence(s)|, Apply(out, s));
    }
  }

  /** Soundness: whatever is accepted encodes sequences that leave the required room and mean the output. */
  lemma {:induction false} DecodeSound(block: seq<byte>, capacity: int, ip: nat, out: seq<byte>)
    returns (sequences: seq<Sequence>, last: seq<byte>, low: nat)
    requires ip <= |block| && Decode(block, capacity, ip, out).Some?
    ensures Fits(sequences, last, |out|, capacity) && AllRepresentable(sequences) && low <= 15
    ensures At(block, ip, EncodeBlock(sequences, last, low)) && ip + |EncodeBlock(sequences, last, low)| == |block|
    ensures Decode(block, capacity, ip, out).value == Run(sequences, out) + last
    decreases |block| - ip
  {
    hide ReadRun, ReadMatch, EncodeRun, EncodeMatch, Ext, Apply, At, Nibble;
    var (literals, mid) := ReadRun(block, ip).value;
    RunCanonical(block, ip);
    if mid == |block| {
      sequences, last, low := [], literals, block[ip] % 16;
      assert EncodeBlock(sequences, last, low) == EncodeRun(last, low);
    } else {
      var (offset, matchLength, next) := ReadMatch(block, block[ip] % 16, mid).value;
      MatchCanonical(block, mid, block[ip] % 16);
      var s := Sequence(literals, offset, matchLength);
      AtConcat(block, ip, EncodeRun(literals, block[ip] % 16), EncodeMatch(offset, matchLength));
      var more;
      more, last, low := DecodeSound(block, capacity, next, Apply(out, s));
      sequences := [s] + more;
      assert sequences[0] == s && sequences[1..] == more;
      BlockCons(s, more, last, low, block, ip);
      FitsCons(s, more, last, |out|, capacity);
    }
  }

  /** A block is accepted, and means `out`, exactly when it encodes sequences that leave the required room and mean `out`. */
  lemma DecodeBlockExact(block: seq<byte>, capacity: int, out: seq<byte>)
    ensures DecodeBlock(block, capacity) == Some(out) <==>
            exists sequences, last, low :: IsEncodingOf(block, capacity, sequences, last, low) && out == Run(sequences, []) + last
  {
    if DecodeBlock(block, capacity) == Some(out) {
      if capacity == 0 {
        assert IsEncodingOf(block, capacity, [], [], 0);
        assert Run([], []) + [] == out;
      } else {
        var sequences, last, low := DecodeSound(block, capacity, 0, []);
        assert IsEncodingOf(block, capacity, sequences, last, low);
      }
    }
    if sequences, last, low :| IsEncodingOf(block, capacity, sequences, last, low) && out == Run(sequences, []) + last {
      if capacity == 0 {
        assert sequences == [] && last == [];
      } else {
        DecodeComplete(sequences, last, low, capacity, block, 0, []);
      }
    }
  }

  /** `block` is the layout of the given sequences, which leave the room that a buffer of `capacity` bytes demands. */
  ghost predicate IsEncodingOf(block: seq<byte>, capacity: int, sequences: seq<Sequence>, last: seq<byte>, low: nat) {
    && AllRepresentable(sequences) && low <= 15 && (capacity == 0 ==> low == 0)
    && Fits(sequences, last, 0, capacity)
    && block == EncodeBlock(sequences, last, low)
  }

  const OFFSET_ZERO: seq<byte> := [0x10, 65, 0, 0, 0x50, 1, 2, 3, 4, 5]

  /** A match with offset 0, which the block format calls invalid, is accepted and yields zeros. */
  lemma OffsetZeroAccepted()
    ensures DecodeBlock(OFFSET_ZERO, 13) == Some([65, 0, 0, 0, 0, 1, 2, 3, 4, 5])
  {
    var b := OFFSET_ZERO;
    assert b[1..2] == [65] && b[5..10] == [1, 2, 3, 4, 5];
    assert ReadRun(b, 0) == Some(([65], 2));
    assert ReadLE(b, 2, 2) == 0 by { assert ReadLE(b, 4, 0) == 0 && ReadLE(b, 3, 1) == 0; }
    assert ReadMatch(b, 0, 2) == Some((0, 4, 4));
    ZerosCopied([65]);
    assert ReadRun(b, 4) == Some(([1, 2, 3, 4, 5], 10));
    var out := [65, 0, 0, 0, 0];
    hide ReadRun, ReadMatch, CopyMatch;
    assert Apply([], Sequence([65], 0, 4)) == out;
    assert out + [1, 2, 3, 4, 5] == [65, 0, 0, 0, 0, 1, 2, 3, 4, 5];
    assert Decode(b, 13, 4, out) == Some(out + [1, 2, 3, 4, 5]);
    assert Decode(b, 13, 0, []) == Decode(b, 13, 4, out);
  }

  lemma ZerosCopied(out: seq<byte>)
    ensures CopyMatch(out, 0, 4) == out + [0, 0, 0, 0]
  {
    var r := out + [0, 0, 0, 0];
    CopyMatchUnique(out, 0, 4, r);
  }

  // ---------------------------------------------------------------------------------------------
  // End of block conditions
  // ---------------------------------------------------------------------------------------------

  /**
    What the format demands of one sequence of a block that means `n` bytes, with `start` bytes before it: its offset
    is in 1..65535 and points into what precedes the match, its match is at least 4 long, starts at least 12 bytes before
    the end and ends at least 5 bytes before it.
   */
  ghost predicate WellPlaced(s: Sequence, start: nat, n: nat) {
    && 1 <= s.offset <= MAX_DISTANCE && s.matchLength >= MINMATCH
    && s.offset <= start + |s.literals|
    && start + |s.literals| <= n - MFLIMIT
    && start + |s.literals| + s.matchLength <= n - LASTLITERALS
  }

  ghost predicate WellFormed(sequences: seq<Sequence>, start: nat, n: nat) {
    sequences == [] ||
    (WellPlaced(sequences[0], start, n) &&
     WellFormed(sequences[1..], start + |sequences[0].literals| + sequences[0].matchLength, n))
  }

  lemma {:induction false} WellFormedSnoc(sequences: seq<Sequence>, s: Sequence, out: seq<byte>, n: nat)
    requires WellFormed(sequences, |out|, n) && WellPlaced(s, |Run(sequences, out)|, n)
    ensures WellFormed(sequences + [s], |out|, n)
    decreases |sequences|
  {
    if sequences == [] {
      assert (sequences + [s])[1..] == [];
    } else {
      hide WellPlaced, Apply;
      assert (sequences + [s])[1..] == sequences[1..] + [s] && (sequences + [s])[0] == sequences[0];
      WellFormedSnoc(sequences[1..], s, Apply(out, sequences[0]), n);
    }
  }

  lemma {:induction false} WellFormedRepresentable(sequences: seq<Sequence>, start: nat, n: nat)
    requires WellFormed(sequences, start, n)
    ensures AllRepresentable(sequences)
    decreases |sequences|
  {
    if sequences != [] {
      WellFormedRepresentable(sequences[1..], start + |sequences[0].literals| + sequences[0].matchLength, n);
      forall s | s in sequences ensures Representable(s) {
        if s != sequences[0] { assert s in sequences[1..]; }
      }
    }
  }

  lemma RunLength(sequences: seq<Sequence>, out: seq<byte>, n: nat)
    requires WellFormed(sequences, |out|, n) && sequences != []
    ensures |Run(sequences, out)| <= n - LASTLITERALS
    decreases |sequences|
  {
    if |sequences| == 1 {
      assert sequences[1..] == [];
    } else {
      RunLength(sequences[1..], Apply(out, sequences[0]), n);
    }
  }

  /** A block that meets the end of block conditions leaves the room the decoder demands of a buffer of its own size. */
  lemma {:induction false} WellFormedFits(sequences: seq<Sequence>, last: seq<byte>, out: seq<byte>, n: nat, capacity: int)
    requires WellFormed(sequences, |out|, n) && |Run(sequences, out)| + |last| == n <= capacity
    ensures AllRepresentable(sequences) && Fits(sequences, last, |out|, capacity)
    decreases |sequences|
  {
    WellFormedRepresentable(sequences, |out|, n);
    if sequences != [] {
      RunLength(sequences, out, n);
      hide Apply, EncodeRun;
      var s, more := sequences[0], sequences[1..];
      assert sequences == [s] + more;
      WellFormedFits(more, last, Apply(out, s), n, capacity);
      FitsCons(s, more, last, |out|, capacity);
    }
  }

  /** Hence such a block decodes to its meaning. */
  lemma WellFormedDecodes(sequences: seq<Sequence>, last: seq<byte>, n: nat, capacity: int)
    requires WellFormed(sequences, 0, n) && |Run(sequences, []) + last| == n <= capacity
    ensures AllRepresentable(sequences)
    ensures DecodeBlock(EncodeBlock(sequences, last, 0), capacity) == Some(Run(sequences, []) + last)
  {
    WellFormedFits(sequences, last, [], n, capacity);
    assert IsEncodingOf(EncodeBlock(sequences, last, 0), capacity, sequences, last, 0);
    DecodeBlockExact(EncodeBlock(sequences, last, 0), capacity, Run(sequences, []) + last);
  }
}
