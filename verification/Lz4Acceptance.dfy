/**
  Which blocks LZ4_decompress_safe accepts, in the numbers of the LZ4 block format. Nothing here is stated through the
  constants that the encoder and the decoder share: tokens, length bytes and margins are written out.
 */
module Lz4Acceptance {
  import opened Wrappers
  import opened Bytes
  import opened Lz4Format

  // ---------------------------------------------------------------------------------------------
  // Layout
  // ---------------------------------------------------------------------------------------------

  /** The bytes of a length from 15 on: as many 255s as it holds, and the rest. */
  function LengthBytes(n: nat): (r: seq<byte>) {
    if n < 15 then [] else seq((n - 15) / 255, _ => 255) + [(n - 15) % 255]
  }

  function AtMost15(n: nat): (r: nat)
    ensures r <= 15
  {
    if n < 15 then n else 15
  }

  ghost predicate Writable(s: Sequence) {
    s.offset <= 65535 && s.matchLength >= 4
  }

  /** A sequence: token, literal length, literals, offset in two bytes with the lower one first, and match length. */
  function SequenceBytes(s: Sequence): (r: seq<byte>)
    requires Writable(s)
  {
    [16 * AtMost15(|s.literals|) + AtMost15(s.matchLength - 4)] + LengthBytes(|s.literals|) + s.literals
    + [s.offset % 256, s.offset / 256] + LengthBytes(s.matchLength - 4)
  }

  function LastBytes(last: seq<byte>, low: nat): (r: seq<byte>)
    requires low <= 15
  {
    [16 * AtMost15(|last|) + low] + LengthBytes(|last|) + last
  }

  ghost predicate AllWritable(sequences: seq<Sequence>) {
    forall s | s in sequences :: Writable(s)
  }

  /** A block: its sequences and the last literals. */
  function BlockBytes(sequences: seq<Sequence>, last: seq<byte>, low: nat): (r: seq<byte>)
    requires AllWritable(sequences) && low <= 15
  {
    if sequences == [] then LastBytes(last, low) else SequenceBytes(sequences[0]) + BlockBytes(sequences[1..], last, low)
  }

  // ---------------------------------------------------------------------------------------------
  // Margins
  // ---------------------------------------------------------------------------------------------

  /**
    The margins that every sequence of a block must leave, `start` bytes having been produced before the first one: its match
    begins at least 12 bytes and ends at least 5 bytes before the capacity, at least 8 bytes of the block follow its literals,
    and at least 5 bytes follow it. Its offset does not reach before the output.
   */
  ghost predicate Admitted(sequences: seq<Sequence>, last: seq<byte>, start: nat, capacity: int)
    requires AllWritable(sequences)
  {
    if sequences == [] then start + |last| <= capacity
    else
      var s, rest := sequences[0], |BlockBytes(sequences[1..], last, 0)|;
      var begin := start + |s.literals|;
      && Writable(s) && s.offset <= begin && begin + 12 <= capacity && begin + s.matchLength + 5 <= capacity
      && 2 + |LengthBytes(s.matchLength - 4)| + rest >= 8 && rest >= 5
      && Admitted(sequences[1..], last, begin + s.matchLength, capacity)
  }

  // ---------------------------------------------------------------------------------------------
  // The decoder agrees
  // ---------------------------------------------------------------------------------------------

  lemma {:induction false} RunOf255(n: nat)
    ensures ExtBytes(n) == seq(n / 255, _ => 255) + [n % 255]
    decreases n
  {
    if n >= 255 {
      RunOf255(n - 255);
      assert n / 255 == (n - 255) / 255 + 1 && n % 255 == (n - 255) % 255;
      assert seq(n / 255, _ => 255) == [255] + seq((n - 255) / 255, _ => 255);
    }
  }

  lemma SameLength(n: nat)
    ensures Ext(n) == LengthBytes(n) && Nibble(n) == AtMost15(n)
  {
    if n >= 15 { RunOf255(n - 15); }
  }

  lemma SameOffset(n: nat)
    requires n <= 65535
    ensures WriteLE(n, 2) == [n % 256, n / 256]
  {
    assert WriteLE(n / 256, 1) == [n / 256 % 256] + WriteLE(n / 256 / 256, 0);
  }

  lemma SameRun(literals: seq<byte>, low: nat)
    requires low <= 15
    ensures EncodeRun(literals, low) == [16 * AtMost15(|literals|) + low] + LengthBytes(|literals|) + literals
  {
    SameLength(|literals|);
    hide Ext, LengthBytes, Nibble, AtMost15;
  }

  lemma SameMatch(offset: nat, length: nat)
    requires offset <= 65535 && length >= 4
    ensures EncodeMatch(offset, length) == [offset % 256, offset / 256] + LengthBytes(length - 4) && Nibble(length - 4) == AtMost15(length - 4)
  {
    SameLength(length - 4);
    SameOffset(offset);
    hide Ext, LengthBytes, WriteLE, Nibble, AtMost15;
  }

  lemma SameSequence(s: Sequence)
    requires Writable(s)
    ensures Representable(s) && EncodeSequence(s) == SequenceBytes(s)
  {
    hide EncodeRun, EncodeMatch, LengthBytes, Nibble, AtMost15;
    SameMatch(s.offset, s.matchLength);
    SameRun(s.literals, AtMost15(s.matchLength - 4));
    var token := [16 * AtMost15(|s.literals|) + AtMost15(s.matchLength - 4)];
    Regrouped(token, LengthBytes(|s.literals|), s.literals, [s.offset % 256, s.offset / 256], LengthBytes(s.matchLength - 4));
  }

  lemma Regrouped(a: seq<byte>, b: seq<byte>, c: seq<byte>, d: seq<byte>, e: seq<byte>)
    ensures (a + b + c) + (d + e) == a + b + c + d + e
  {
  }

  lemma SameLast(last: seq<byte>, low: nat)
    requires low <= 15
    ensures EncodeRun(last, low) == LastBytes(last, low)
  {
    SameLength(|last|);
  }

  lemma {:induction false} SameBlock(sequences: seq<Sequence>, last: seq<byte>, low: nat)
    requires AllWritable(sequences) && low <= 15
    ensures AllRepresentable(sequences) && EncodeBlock(sequences, last, low) == BlockBytes(sequences, last, low)
    decreases |sequences|
  {
    hide EncodeRun, LastBytes, EncodeSequence, SequenceBytes;
    forall s | s in sequences ensures Representable(s) { SameSequence(s); }
    SameLast(last, low);
    if sequences != [] {
      SameSequence(sequences[0]);
      SameBlock(sequences[1..], last, low);
      Appended(EncodeSequence(sequences[0]), EncodeSequences(sequences[1..]), EncodeRun(last, low));
    } else {
      assert EncodeSequences(sequences) + EncodeRun(last, low) == EncodeRun(last, low);
    }
  }

  lemma Appended(a: seq<byte>, b: seq<byte>, c: seq<byte>)
    ensures (a + b) + c == a + (b + c)
  {
  }

  lemma {:induction false} SameMargins(sequences: seq<Sequence>, last: seq<byte>, start: nat, capacity: int)
    requires AllWritable(sequences)
    ensures Admitted(sequences, last, start, capacity) <==> Fits(sequences, last, start, capacity)
    decreases |sequences|
  {
    hide BlockBytes, EncodeBlock, Ext, LengthBytes;
    SameBlock(sequences, last, 0);
    if sequences != [] {
      var s := sequences[0];
      assert Writable(s);
      SameBlock(sequences[1..], last, 0);
      SameLength(s.matchLength - 4);
      SameMargins(sequences[1..], last, start + |s.literals| + s.matchLength, capacity);
    }
  }

  /** The decoder at a laid out sequence, whatever room there is. */
  lemma SequenceDecides(s: Sequence, capacity: int, block: seq<byte>, ip: nat, out: seq<byte>)
    requires Representable(s) && At(block, ip, EncodeSequence(s)) && ip + |EncodeSequence(s)| < |block|
    ensures var next := ip + |EncodeSequence(s)|;
            Decode(block, capacity, ip, out) ==
            if Roomy(s, |out|, capacity) && next <= |block| - 6 + |Ext(s.matchLength - MINMATCH)| && next <= |block| - LASTLITERALS
            then Decode(block, capacity, next, Apply(out, s)) else None
  {
    hide ReadRun, ReadMatch, EncodeRun, EncodeMatch, Ext, Apply, At, Nibble, Roomy;
    var run := EncodeRun(s.literals, Nibble(s.matchLength - MINMATCH));
    AtConcat(block, ip, run, EncodeMatch(s.offset, s.matchLength));
    RunReads(block, ip, s.literals, Nibble(s.matchLength - MINMATCH));
    MatchReads(block, ip + |run|, s.offset, s.matchLength);
  }

  /** A layout that leaves no room where it must is refused, wherever in the block that is. */
  lemma {:induction false} RefusedIfTight(sequences: seq<Sequence>, last: seq<byte>, low: nat, capacity: int, block: seq<byte>, ip: nat, out: seq<byte>)
    requires AllRepresentable(sequences) && low <= 15 && !Fits(sequences, last, |out|, capacity)
    requires At(block, ip, EncodeBlock(sequences, last, low)) && ip + |EncodeBlock(sequences, last, low)| == |block|
    ensures ip <= |block| && Decode(block, capacity, ip, out).None?
    decreases |sequences|
  {
    hide Decode, EncodeRun, EncodeSequence, Ext, Apply, At, Roomy;
    if sequences == [] {
      assert EncodeBlock(sequences, last, low) == EncodeRun(last, low);
      LastDecides(last, low, capacity, block, ip, out);
    } else {
      var s, more := sequences[0], sequences[1..];
      assert sequences == [s] + more;
      BlockCons(s, more, last, low, block, ip);
      FitsCons(s, more, last, |out|, capacity);
      SequenceDecides(s, capacity, block, ip, out);
      if !Fits(more, last, |Apply(out, s)|, capacity) {
        RefusedIfTight(more, last, low, capacity, block, ip + |EncodeSequence(s)|, Apply(out, s));
      }
    }
  }

  lemma LastDecides(last: seq<byte>, low: nat, capacity: int, block: seq<byte>, ip: nat, out: seq<byte>)
    requires low <= 15 && At(block, ip, EncodeRun(last, low)) && ip + |EncodeRun(last, low)| == |block|
    ensures Decode(block, capacity, ip, out) == if |out| + |last| <= capacity then Some(out + last) else None
  {
    hide ReadRun, ReadMatch, EncodeRun, Apply, At;
    RunReads(block, ip, last, low);
  }

  /**
    Every layout whatsoever is decoded to its meaning if and only if its sequences leave those margins. Into no room at all only
    the one-byte block 0 goes.
   */
  lemma LayoutDecides(sequences: seq<Sequence>, last: seq<byte>, low: nat, capacity: int)
    requires AllWritable(sequences) && low <= 15 && (capacity == 0 ==> low == 0)
    ensures DecodeBlock(BlockBytes(sequences, last, low), capacity) ==
            if Admitted(sequences, last, 0, capacity) then Some(Run(sequences, []) + last) else None
  {
    hide BlockBytes, Admitted, Fits, EncodeBlock, Decode;
    var block := BlockBytes(sequences, last, low);
    SameBlock(sequences, last, low);
    SameMargins(sequences, last, 0, capacity);
    assert At(block, 0, block) by { assert block[0..|block|] == block; }
    if capacity == 0 {
      NoRoom(sequences, last);
    } else if Admitted(sequences, last, 0, capacity) {
      DecodeComplete(sequences, last, low, capacity, block, 0, []);
    } else {
      RefusedIfTight(sequences, last, low, capacity, block, 0, []);
    }
  }

  lemma NoRoom(sequences: seq<Sequence>, last: seq<byte>)
    requires AllWritable(sequences)
    ensures Admitted(sequences, last, 0, 0) <==> sequences == [] && last == []
    ensures BlockBytes(sequences, last, 0) == [0] <==> sequences == [] && last == []
    ensures Run([], []) + [] == []
  {
    if sequences != [] {
      assert Writable(sequences[0]);
      assert |SequenceBytes(sequences[0])| >= 3;
    } else if last != [] {
      assert |LastBytes(last, 0)| >= 2;
    }
  }

  /** And nothing but such layouts is accepted. */
  lemma AcceptedIsLayout(block: seq<byte>, capacity: int) returns (sequences: seq<Sequence>, last: seq<byte>, low: nat)
    requires DecodeBlock(block, capacity).Some?
    ensures AllWritable(sequences) && low <= 15 && block == BlockBytes(sequences, last, low) && Admitted(sequences, last, 0, capacity)
    ensures DecodeBlock(block, capacity) == Some(Run(sequences, []) + last)
  {
    hide BlockBytes, Admitted, Fits, EncodeBlock, Decode;
    if capacity == 0 {
      sequences, last, low := [], [], 0;
      NoRoom([], []);
    } else {
      sequences, last, low := DecodeSound(block, capacity, 0, []);
      forall s | s in sequences ensures Writable(s) { assert Representable(s); }
      SameBlock(sequences, last, low);
      SameMargins(sequences, last, 0, capacity);
      assert block[0..|block|] == block;
    }
  }

  /** A match that ends 4 bytes before the capacity is refused whatever else is in the block. */
  lemma FourIsTooFew(before: seq<Sequence>, s: Sequence, after: seq<Sequence>, last: seq<byte>, low: nat, capacity: nat)
    requires AllWritable(before + [s] + after) && low <= 15 && capacity > 0
    requires |Run(before, [])| + |s.literals| + s.matchLength + 4 == capacity
    ensures DecodeBlock(BlockBytes(before + [s] + after, last, low), capacity).None?
  {
    hide BlockBytes, Admitted, DecodeBlock;
    LateMatch(before, s, after, last, [], capacity);
    LayoutDecides(before + [s] + after, last, low, capacity);
  }

  lemma {:induction false} LateMatch(before: seq<Sequence>, s: Sequence, after: seq<Sequence>, last: seq<byte>, out: seq<byte>, capacity: nat)
    requires AllWritable(before + [s] + after) && |Run(before, out)| + |s.literals| + s.matchLength + 4 == capacity
    ensures !Admitted(before + [s] + after, last, |out|, capacity)
    decreases |before|
  {
    hide BlockBytes, LengthBytes, Apply;
    var all := before + [s] + after;
    if before == [] {
      assert all[0] == s;
    } else {
      assert all[0] == before[0] && all[1..] == before[1..] + [s] + after;
      LateMatch(before[1..], s, after, last, Apply(out, before[0]), capacity);
    }
  }

  // ---------------------------------------------------------------------------------------------
  // Twenty equal bytes
  // ---------------------------------------------------------------------------------------------

  const SEVENS: seq<byte> := [0x1A, 7, 1, 0, 0x50, 7, 7, 7, 7, 7]

  lemma SevensLaidOut()
    ensures AllWritable([Sequence([7], 1, 14)]) && BlockBytes([Sequence([7], 1, 14)], [7, 7, 7, 7, 7], 0) == SEVENS
    ensures forall capacity: nat :: Admitted([Sequence([7], 1, 14)], [7, 7, 7, 7, 7], 0, capacity) <==> capacity >= 20
  {
    var s, last := Sequence([7], 1, 14), [7, 7, 7, 7, 7];
    assert [s][1..] == [];
    assert SequenceBytes(s) == [0x1A, 7, 1, 0];
    assert LastBytes(last, 0) == [0x50, 7, 7, 7, 7, 7];
    assert BlockBytes([], last, 0) == LastBytes(last, 0);
    assert BlockBytes([s], last, 0) == SequenceBytes(s) + BlockBytes([], last, 0);
  }

  lemma SevensMean()
    ensures Run([Sequence([7], 1, 14)], []) + [7, 7, 7, 7, 7] == seq(20, _ => 7)
  {
    hide CopyMatch;
    var s, r := Sequence([7], 1, 14), seq(15, _ => 7);
    assert r[..1] == [7];
    CopyMatchUnique([7], 1, 14, r);
    assert [] + [7] == [7];
    assert [s][1..] == [];
    assert Run([], r) == r;
  }

  /** What the encoder writes for twenty equal bytes: one literal, fourteen copies of it, and the last five. */
  lemma TwentyEqual()
    ensures DecodeBlock(SEVENS, 20) == Some(seq(20, _ => 7)) && DecodeBlock(SEVENS, 19).None?
  {
    hide *;
    SevensLaidOut();
    SevensMean();
    LayoutDecides([Sequence([7], 1, 14)], [7, 7, 7, 7, 7], 0, 20);
    LayoutDecides([Sequence([7], 1, 14)], [7, 7, 7, 7, 7], 0, 19);
  }
}
