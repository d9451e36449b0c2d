/**
  LZ4F_decompress: a decoder that may be fed any number of input bytes at a time and given any amount of output
  room at a time. Whatever the cuts, it produces what the reference decoding of the whole frame produces. For linked blocks
  it keeps the end of what it has produced as a dictionary, in the caller's memory or in its own.
 */
module Lz4FrameDecoder {
  import opened Wrappers
  import opened Bytes
  import opened Lz4Dictionary
  import opened Lz4FrameFormat
  import Lz4Decoder

  datatype Stage =
    | GetHeader | StoreHeader | Init | GetCBlockSize | StoreCBlockSize | CopyDirect | GetCBlock | StoreCBlock | FlushOut
    | GetSuffix | StoreSuffix | GetSFrameSize | StoreSFrameSize | SkipSkippable

  /** What follows a stage: another one, a return that asks for more, the end of the frame, or a failure. */
  datatype Flow = Again | Stop(hint: nat) | Done | Fail(error: Error)

  function Min(a: nat, b: nat): (r: nat)
    ensures r <= a && r <= b && (r == a || r == b)
  {
    if a < b then a else b
  }

  /** The error that is reported for one of the frame: a block that does not decode into the caller's buffer has another one. */
  predicate Blames(reported: Error, error: Error) {
    reported == error || (reported == Generic && error == DecompressionFailed)
  }

  /** Stages that may be left without consuming input. */
  function Rank(stage: Stage): (r: nat) {
    if stage == FlushOut || stage == GetCBlock then 1 else 0
  }

  /** The shortest header is there and announces the longest one. */
  ghost predicate LongHeader(xxh: Checksum, s: seq<byte>) {
    |s| >= MIN_HEADER && DecodeHeader(xxh, s[..MIN_HEADER]).Incomplete?
  }

  lemma LongHeaderIncomplete(xxh: Checksum, s: seq<byte>)
    requires |s| < MAX_HEADER && LongHeader(xxh, s)
    ensures DecodeHeader(xxh, s).Incomplete?
  {
    hide ReadLE, HeaderChecksum, BlockSize;
    ReadLEPrefix(s, MIN_HEADER, 0, 4);
  }

  lemma LongHeaderDecides(xxh: Checksum, s: seq<byte>)
    requires |s| == MAX_HEADER && LongHeader(xxh, s)
    ensures var r := DecodeHeader(xxh, s); r.Refused? || (r.FrameHeader? && r.size == MAX_HEADER)
  {
    hide ReadLE, HeaderChecksum, BlockSize;
    ReadLEPrefix(s, MIN_HEADER, 0, 4);
  }

  /** The blocks of a frame end with a size of four bytes. */
  lemma {:induction false} BlocksLeave(xxh: Checksum, info: Info, remaining: nat, before: seq<byte>, s: seq<byte>)
    ensures BlocksOf(xxh, info, remaining, before, s).Content? ==> 4 + |BlocksOf(xxh, info, remaining, before, s).left| <= |s|
    decreases |s|
  {
    hide ReadLE, BlockContent, Outstanding;
    if |s| >= 4 {
      var size := ReadLE(s, 0, 4) % 0x8000_0000;
      var body := s[4..];
      if 0 < size <= |body| {
        var data := BlockContent(info, before, ReadLE(s, 0, 4), body[..size]);
        if data.Some? { BlocksLeave(xxh, info, Outstanding(info, remaining, |data.value|), before + data.value, body[size..]); }
      }
    }
  }

  lemma CompressedLeaves(xxh: Checksum, info: Info, remaining: nat, before: seq<byte>, n: nat, s: seq<byte>)
    ensures CompressedOf(xxh, info, remaining, before, n, s).Content? ==> n + 4 + |CompressedOf(xxh, info, remaining, before, n, s).left| <= |s|
  {
    hide BlocksOf, DecodeWith, Outstanding;
    if n <= |s| {
      var data := DecodeWith(Reachable(info, before), s[..n], info.maxBlock);
      if data.Some? { BlocksLeave(xxh, info, Outstanding(info, remaining, |data.value|), before + data.value, s[n..]); }
    }
  }

  lemma SkippableLeaves(s: seq<byte>)
    ensures SkippableOf(s).Content? ==> |s| >= 4 && |s| == 4 + ReadLE(s, 0, 4) + |SkippableOf(s).left|
  {
    hide ReadLE;
  }

  /** A frame has a header and the size of a last block; a skippable frame has 8 bytes and those that it announces. */
  lemma FrameLeaves(xxh: Checksum, remaining: nat, s: seq<byte>)
    requires FrameOf(xxh, remaining, s).Content?
    ensures var left := |FrameOf(xxh, remaining, s).left|;
            && |s| >= 8
            && if ReadLE(s, 0, 4) / 16 == 0x184D2A5 then |s| == 8 + ReadLE(s, 4, 4) + left
               else (if s[4] / 8 % 2 == 1 then 15 else 7) + 4 + left <= |s|
  {
    hide BlocksOf, ReadLE, HeaderChecksum, BlockSize;
    match DecodeHeader(xxh, s) {
      case SkippableFrame =>
        SkippableLeaves(s[4..]);
        assert s[4..][..4] == s[4..8];
        ReadLESame(s, s[4..]);
      case FrameHeader(info, size) => BlocksLeave(xxh, info, if info.sized then info.contentSize else remaining, [], s[size..]);
    }
  }

  lemma ReadLESame(s: seq<byte>, t: seq<byte>)
    requires |s| >= 8 && t == s[4..]
    ensures ReadLE(s, 4, 4) == ReadLE(t, 0, 4)
  {
    assert ReadLE(s, 8, 0) == ReadLE(t, 4, 0) && ReadLE(s, 7, 1) == ReadLE(t, 3, 1);
    assert ReadLE(s, 6, 2) == ReadLE(t, 2, 2) && ReadLE(s, 5, 3) == ReadLE(t, 1, 3);
  }

  /** The byte at a position, or any at all behind the end. */
  function Behind(src: seq<byte>, pos: nat): (b: byte) {
    if pos < |src| then src[pos] else 0
  }

  /**
    LZ4_decompress_safe_usingDict on a block into room for a whole one, whatever lies behind the block. The dictionary lies right
    in front of the room or elsewhere. The byte behind the block is read if and only if the block is a single byte that
    announces a long run of literals.
   */
  method DecodeWhole(dict: seq<byte>, inFront: bool, block: seq<byte>, behind: byte, capacity: nat) returns (decoded: Option<seq<byte>>, ghost reach: nat)
    requires 0 < |block| && capacity > 0
    ensures decoded == DecodeWith(dict, block, capacity)
    ensures reach > |block| <==> |block| == 1 && block[0] >= 240
  {
    hide DecodeWith;
    var base := if inFront then |dict| else 0;
    var buffer := new byte[base + capacity](i => if 0 <= i < base <= |dict| then dict[i] else 0);
    assert base > 0 ==> buffer[..base] == dict;
    var size;
    size, reach := Lz4Decoder.DecompressUsingDict(block + [behind], buffer, base, |block|, capacity, dict);
    assert (block + [behind])[..|block|] == block;
    decoded := if size < 0 then None else Some(buffer[base..base + size]);
  }

  const TWO31 := 0x8000_0000

  /** The parts of a frame that the stages belong to. */
  datatype Part = Header | Blocks | Flush | End | Skippable

  function PartOf(stage: Stage): (p: Part) {
    match stage
    case GetHeader | StoreHeader | Init => Header
    case GetCBlockSize | StoreCBlockSize | CopyDirect | GetCBlock | StoreCBlock => Blocks
    case FlushOut => Flush
    case GetSuffix | StoreSuffix => End
    case _ => Skippable
  }

  /** The frame has a header that says its blocks are linked. */
  ghost predicate LinkedFrame(xxh: Checksum, s: seq<byte>) {
    |s| >= MIN_HEADER && DecodeHeader(xxh, s).FrameHeader? && DecodeHeader(xxh, s).info.linked
  }

  lemma LinkedStable(xxh: Checksum, s: seq<byte>, t: seq<byte>)
    requires |s| >= MIN_HEADER && s <= t
    ensures LinkedFrame(xxh, s) ==> LinkedFrame(xxh, t)
  {
    hide DecodeHeader;
    if LinkedFrame(xxh, s) { HeaderStable(xxh, s, t); }
  }

  /**
    LZ4F_dctx. `stored` stands for the first tmpInSize bytes of the header or input buffer, `tmp` for the output buffer, and
    `content` for all that was decoded of the frame, of which the checksum keeps a hash.
   */
  class Context {
    const xxh: Checksum
    var stage: Stage
    var info: Info
    var frameRemaining: nat
    var stored: seq<byte>
    var target: nat
    var tmp: seq<byte>
    var dict: Dict
    var tmpOut: nat // where in the output buffer the block is
    var tmpOutSize: nat
    var tmpOutStart: nat
    var content: seq<byte>

    /** The buffers hold what they are to hold. */
    ghost predicate Settled()
      reads this
    {
      && 0 < info.maxBlock <= LARGEST_BLOCK && |tmp| <= LARGEST_BLOCK + 2 * WINDOW
      && tmpOutStart <= tmpOutSize && tmpOut + tmpOutSize <= |tmp| && tmpOutSize <= |content|
    }

    /** There is room in the output buffer for a block, and for a dictionary of 128 KB if there is one. */
    ghost predicate Buffered()
      reads this
    {
      info.maxBlock + (if info.linked then 2 * WINDOW else 0) <= |tmp| && tmpOutSize <= info.maxBlock && (!info.linked ==> tmpOut == 0)
    }

    /** The block in the output buffer, what came before it, and what of it has not been given to the caller. */
    ghost function Block(): (r: seq<byte>)
      requires Settled()
      reads this
    {
      tmp[tmpOut..tmpOut + tmpOutSize]
    }

    ghost function Earlier(): (r: seq<byte>)
      requires Settled()
      reads this
    {
      content[..|content| - tmpOutSize]
    }

    /** The dictionary is what it should be for the blocks to come. */
    ghost predicate Windowed()
      requires Settled()
      reads this
    {
      match PartOf(stage)
      case Blocks => Buffered() && (info.linked ==> Holds(tmp, dict, content))
      case Flush => Buffered() && content == Earlier() + Block() && (info.linked ==> Flushing(tmp, dict, tmpOut, Block(), tmpOutStart, Earlier()))
      case _ => true
    }

    /** What was given to the caller of the frame. */
    ghost function Delivered(): (r: seq<byte>)
      requires Settled()
      reads this
    {
      if stage == FlushOut then Earlier() + Block()[..tmpOutStart] else content
    }

    ghost predicate Valid()
      reads this
    {
      && Settled() && Windowed()
      && match stage
         case StoreHeader => |stored| < target && (target == MIN_HEADER || (target == MAX_HEADER && LongHeader(xxh, stored)))
         case StoreCBlockSize => |stored| < BLOCK_HEADER
         case CopyDirect => target > 0
         case StoreCBlock => |stored| < target
         case GetCBlock => target > 0
         case StoreSuffix => |stored| < 4 && frameRemaining == 0 && info.checksum
         case StoreSFrameSize => |stored| < 4
         case _ => true
    }

    /** `all` is what was given to the caller of the frame, `rest` the input to come, and only a linked frame has linked blocks. */
    ghost predicate Tracks(all: seq<byte>, linked: bool, rest: seq<byte>)
      requires Settled()
      reads this
    {
      && (stage == GetHeader ==> (LinkedFrame(xxh, rest) ==> linked))
      && (stage == StoreHeader ==> (LinkedFrame(xxh, stored + rest) ==> linked))
      && match PartOf(stage)
         case Header => all == [] && (stage == Init ==> (info.linked ==> linked))
         case Blocks | Flush => all == Delivered() && (info.linked ==> linked)
         case End => all == Delivered()
         case Skippable => all == []
    }

    /** What the context makes of the input `s` that is still to come. */
    ghost function Future(s: seq<byte>): Decoded
      requires Settled()
      reads this
    {
      match stage
      case GetHeader => FrameOf(xxh, frameRemaining, s)
      case StoreHeader => FrameOf(xxh, frameRemaining, stored + s)
      case Init => BlocksOf(xxh, info, frameRemaining, [], s)
      case GetCBlockSize => BlocksOf(xxh, info, frameRemaining, content, s)
      case StoreCBlockSize => BlocksOf(xxh, info, frameRemaining, content, stored + s)
      case CopyDirect => StoredOf(xxh, info, frameRemaining, content, target, s)
      case GetCBlock => CompressedOf(xxh, info, frameRemaining, content, target, s)
      case StoreCBlock => CompressedOf(xxh, info, frameRemaining, content, target, stored + s)
      case FlushOut => Prepend(Block()[tmpOutStart..], BlocksOf(xxh, info, frameRemaining, content, s))
      case GetSuffix => SuffixOf(xxh, info, frameRemaining, content, s)
      case StoreSuffix => SuffixOf(xxh, info, frameRemaining, content, stored + s)
      case GetSFrameSize => SkippableOf(s)
      case StoreSFrameSize => SkippableOf(stored + s)
      case SkipSkippable => SkipOf(target, s)
    }

    /**
      After a stage: `before` is what was to come of the input, `data` what the stage produced, `rest` the input after it. A
      dictionary of 2^31 bytes is longer than the decoder can be told, which says nothing about the frame.
     */
    ghost predicate Leads(before: Decoded, flow: Flow, data: seq<byte>, rest: seq<byte>)
      reads this
    {
      match flow
      case Fail(error) => error != DictionaryTooLong ==> before.Broken? && Blames(error, before.error)
      case Done => stage == GetHeader && before == Content(data, rest)
      case _ => Settled() && before == Prepend(data, Future(rest))
    }

    /** A stage that goes on has consumed input or come closer to doing so; one that stops has done what input and room allow. */
    ghost predicate Progress(src: seq<byte>, pos: nat, pos': nat, data: seq<byte>, room: nat, flow: Flow, before: Stage)
      reads this
    {
      && (flow == Again ==> pos' > pos || Rank(stage) < Rank(before))
      && (flow.Stop? ==> flow.hint == Hint() && Waiting() && (pos' > pos || |data| > 0 || pos == |src| || room == 0))
    }

    /** How many bytes are asked for: what the stage lacks, and the size in front of the next block if there is to be one. */
    ghost function Hint(): (n: int)
      reads this
    {
      match stage
      case GetHeader => 7
      case StoreHeader => target - |stored| + 4
      case StoreCBlockSize => 4 - |stored|
      case CopyDirect => target + 4
      case GetCBlock => target + 4
      case StoreCBlock => target - |stored| + 4
      case FlushOut => 4
      case StoreSuffix => 4 - |stored|
      case StoreSFrameSize => 4 - |stored|
      case SkipSkippable => target
      case _ => 4
    }

    /** A stage in which a call may return and ask for more. */
    ghost predicate Waiting()
      reads this
    {
      stage != GetSuffix && (stage == SkipSkippable ==> target > 0)
    }

    lemma ValidIsSettled()
      requires Valid()
      ensures Settled()
    {
    }

    /** While it waits, the context cannot complete a frame without further input. */
    lemma WaitingNeedsInput()
      requires Valid() && Waiting()
      ensures Future([]) == Unfinished
    {
      hide DecodeHeader, ReadLE;
      assert stored + [] == stored;
      if stage == StoreHeader && target == MAX_HEADER {
        LongHeaderIncomplete(xxh, stored);
      }
    }

    /** A header that is being stored up to the longest size announces a content size, and is none of a skippable frame. */
    lemma StoredHeaderIsLong(s: seq<byte>)
      requires Valid() && stage == StoreHeader && target == 15
      ensures var t := stored + s; |t| >= 7 && t[4] / 8 % 2 == 1 && ReadLE(t, 0, 4) / 16 != 0x184D2A5
    {
      hide ReadLE, HeaderChecksum, BlockSize, Windowed;
      assert (stored + s)[..7] == stored[..7];
      ReadLEPrefix(stored + s, 7, 0, 4);
    }

    /** The header of a skippable frame of less than three bytes is being stored. */
    ghost predicate ShortSkippable(s: seq<byte>)
      reads this
    {
      stage == StoreHeader && |stored + s| >= 8 && ReadLE(stored + s, 0, 4) / 16 == 0x184D2A5 && ReadLE(stored + s, 4, 4) < 3
    }

    /**
      What is asked for does not reach behind the end of a frame, except when the header of a skippable frame is being stored that
      has less than three bytes.
     */
    lemma HintWithinFrame(s: seq<byte>)
      requires Valid() && Waiting() && Future(s).Content?
      ensures Hint() + |Future(s).left| <= |s| <==> !ShortSkippable(s)
    {
      hide BlocksOf, DecodeHeader, ReadLE, Windowed, SkippableOf, DecodeWith, LongHeader;
      match stage
      case GetHeader => FrameLeaves(xxh, frameRemaining, s);
      case StoreHeader =>
        FrameLeaves(xxh, frameRemaining, stored + s);
        if target == 15 { StoredHeaderIsLong(s); }
      case Init => BlocksLeave(xxh, info, frameRemaining, [], s);
      case GetCBlockSize => BlocksLeave(xxh, info, frameRemaining, content, s);
      case StoreCBlockSize => BlocksLeave(xxh, info, frameRemaining, content, stored + s);
      case CopyDirect => BlocksLeave(xxh, info, Outstanding(info, frameRemaining, target), content + s[..target], s[target..]);
      case GetCBlock => CompressedLeaves(xxh, info, frameRemaining, content, target, s);
      case StoreCBlock => CompressedLeaves(xxh, info, frameRemaining, content, target, stored + s);
      case FlushOut => BlocksLeave(xxh, info, frameRemaining, content, s);
      case GetSFrameSize => SkippableLeaves(s);
      case StoreSFrameSize => SkippableLeaves(stored + s);
      case _ =>
    }

    constructor (xxh: Checksum)
      ensures Valid() && stage == GetHeader && frameRemaining == 0 && this.xxh == xxh
    {
      this.xxh := xxh;
      stage := GetHeader;
      info := Info(false, false, 0, 1, false);
      frameRemaining, target, tmpOut, tmpOutSize, tmpOutStart := 0, 0, 0, 0, 0;
      stored, tmp, dict, content := [], [], InTmp(0), [];
    }

    /** Takes as many bytes as the target still needs, or as there are. */
    method Store(src: seq<byte>, pos: nat, need: nat, ghost input: seq<byte>) returns (pos': nat)
      requires pos <= |src| && src <= input && |stored| <= need
      modifies this`stored
      ensures pos <= pos' <= |src| && |stored| <= need && (|stored| == need || pos' == |src|)
      ensures stored == old(stored) + src[pos..pos'] && stored + input[pos'..] == old(stored) + input[pos..]
    {
      var size := Min(need - |stored|, |src| - pos);
      pos' := pos + size;
      stored := stored + src[pos..pos'];
      assert input[pos..] == src[pos..pos'] + input[pos'..];
    }

    /** Sets the context up after a header: LZ4F_decodeHeader, `s` being the bytes at hand and `fromHeader` whether they are the stored ones. */
    method TakeHeader(s: seq<byte>, fromHeader: bool) returns (flow: Flow, size: nat)
      requires Settled() && |s| >= MIN_HEADER && (!fromHeader ==> |s| >= MAX_HEADER)
      requires fromHeader ==> |s| == MIN_HEADER || (|s| == MAX_HEADER && LongHeader(xxh, s))
      modifies this`stage, this`info, this`frameRemaining, this`stored, this`target
      ensures (flow == Again || flow.Fail?) && flow != Fail(DictionaryTooLong) && Settled()
      ensures flow.Fail? <==> DecodeHeader(xxh, s).Refused?
      ensures flow == Again ==> Valid()
      ensures match DecodeHeader(xxh, s)
              case Refused(error) => flow == Fail(error)
              case Incomplete => stage == StoreHeader && fromHeader && stored == s && frameRemaining == old(frameRemaining)
              case SkippableFrame => if fromHeader then stage == StoreSFrameSize && stored == s[4..]
                                     else stage == GetSFrameSize && size == 4
              case FrameHeader(i, n) => stage == Init && info == i && size == n && (fromHeader ==> n == |s|)
                                        && frameRemaining == if i.sized then i.contentSize else old(frameRemaining)
    {
      hide HeaderChecksum, BlockSize, ReadLE;
      flow, size := Again, |s|;
      if |s| == MAX_HEADER && fromHeader { LongHeaderDecides(xxh, s); }
      assert s[..MIN_HEADER] == s || |s| > MIN_HEADER;
      match DecodeHeader(xxh, s)
      case Refused(error) => flow := Fail(error);
      case Incomplete =>
        stored, target, stage := s, MAX_HEADER, StoreHeader;
      case SkippableFrame =>
        if fromHeader {
          stored, stage := s[4..], StoreSFrameSize;
        } else {
          size, stage := 4, GetSFrameSize;
        }
      case FrameHeader(i, n) =>
        info, size, stage := i, n, Init;
        if i.sized { frameRemaining := i.contentSize; }
    }

    /** dstage_getHeader. */
    method StepGetHeader(src: seq<byte>, pos: nat, ghost input: seq<byte>, ghost linked: bool) returns (flow: Flow, pos': nat)
      requires Valid() && stage == GetHeader && pos <= |src| && src <= input
      requires Tracks([], linked, input[pos..])
      modifies this`stage, this`info, this`frameRemaining, this`stored, this`target
      ensures pos <= pos' <= |src| && (!flow.Fail? ==> Valid()) && flow != Fail(DictionaryTooLong)
      ensures flow == Again || flow.Stop? ==> Tracks([], linked, input[pos'..])
      ensures Progress(src, pos, pos', [], 1, flow, old(stage))
      ensures Leads(old(Future(input[pos..])), flow, [], input[pos'..])
    {
      hide BlocksOf, DecodeHeader, SkippableOf, Prepend;
      ghost var rest := input[pos..];
      PrependNothing(Future(rest));
      if |src| - pos >= MAX_HEADER {
        var s := src[pos..];
        var size;
        FrameFromHeader(xxh, frameRemaining, s, rest);
        LinkedStable(xxh, s, rest);
        flow, size := TakeHeader(s, false);
        pos' := if flow.Fail? then pos else pos + size;
        assert !flow.Fail? ==> input[pos'..] == rest[size..];
      } else {
        stored := [];
        if pos == |src| {
          return Stop(MIN_HEADER), pos;
        }
        target, stage := MIN_HEADER, StoreHeader;
        assert [] + rest == rest;
        flow, pos' := StepStoreHeader(src, pos, input, linked);
      }
      if !flow.Fail? { PrependNothing(Future(input[pos'..])); }
    }

    /** dstage_storeHeader. */
    method StepStoreHeader(src: seq<byte>, pos: nat, ghost input: seq<byte>, ghost linked: bool) returns (flow: Flow, pos': nat)
      requires Valid() && stage == StoreHeader && pos <= |src| && src <= input
      requires Tracks([], linked, input[pos..])
      modifies this`stage, this`info, this`frameRemaining, this`stored, this`target
      ensures pos <= pos' <= |src| && (!flow.Fail? ==> Valid()) && flow != Fail(DictionaryTooLong)
      ensures flow == Again || flow.Stop? ==> Tracks([], linked, input[pos'..])
      ensures Progress(src, pos, pos', [], 1, flow, old(stage))
      ensures Leads(old(Future(input[pos..])), flow, [], input[pos'..])
    {
      hide BlocksOf, DecodeHeader, SkippableOf, Prepend;
      pos' := Store(src, pos, target, input);
      ghost var all := stored + input[pos'..];
      assert old(|stored|) >= MIN_HEADER ==> stored[..MIN_HEADER] == old(stored)[..MIN_HEADER];
      if |stored| < target {
        flow := Stop(target - |stored| + BLOCK_HEADER);
      } else {
        FrameFromHeader(xxh, frameRemaining, stored, all);
        LinkedStable(xxh, stored, all);
        var size;
        ghost var s := stored;
        flow, size := TakeHeader(stored, true);
        assert all[4..] == s[4..] + input[pos'..];
        assert all[|s|..] == input[pos'..];
      }
      PrependNothing(Future(input[pos'..]));
    }

    /** dstage_init. */
    method StepInit(src: seq<byte>, pos: nat, room: nat, ghost input: seq<byte>) returns (flow: Flow, pos': nat)
      requires Valid() && stage == Init && pos <= |src| && src <= input
      modifies this
      ensures pos <= pos' <= |src| && (!flow.Fail? ==> Valid()) && flow != Fail(DictionaryTooLong)
      ensures info == old(info) && content == [] && (!flow.Fail? ==> PartOf(stage) == Blocks || PartOf(stage) == End)
      ensures Progress(src, pos, pos', [], room, flow, old(stage))
      ensures Leads(old(Future(input[pos..])), flow, [], input[pos'..])
    {
      hide BlocksOf, Prepend, Windowed;
      Prepare();
      flow, pos' := StepGetCBlockSize(src, pos, room, input);
    }

    /** The buffers are empty, and allocated anew if they are too small. */
    method Prepare()
      requires Settled()
      modifies this
      ensures Valid() && stage == GetCBlockSize && info == old(info) && frameRemaining == old(frameRemaining) && content == []
      ensures var needed := info.maxBlock + if info.linked then 0x2_0000 else 0; |tmp| == if needed > old(|tmp|) then needed else old(|tmp|)
    {
      hide Holds;
      content := [];
      var needed := info.maxBlock + if info.linked then 2 * WINDOW else 0;
      if needed > |tmp| {
        tmp := seq(needed, _ => 0);
      }
      stored, target := [], 0;
      dict, tmpOut, tmpOutSize, tmpOutStart := InTmp(0), 0, 0, 0;
      NothingHolds(tmp);
      stage := GetCBlockSize;
    }

    /** dstage_getCBlockSize. */
    method StepGetCBlockSize(src: seq<byte>, pos: nat, room: nat, ghost input: seq<byte>) returns (flow: Flow, pos': nat)
      requires Valid() && stage == GetCBlockSize && pos <= |src| && src <= input
      modifies this`stage, this`target, this`stored
      ensures !flow.Fail? ==> PartOf(stage) == Blocks || PartOf(stage) == End
      ensures pos <= pos' <= |src| && (!flow.Fail? ==> Valid()) && flow != Fail(DictionaryTooLong)
      ensures Progress(src, pos, pos', [], room, flow, old(stage))
      ensures Leads(old(Future(input[pos..])), flow, [], input[pos'..])
    {
      hide BlocksOf, Prepend, ReadLE;
      ghost var rest := input[pos..];
      if |src| - pos >= BLOCK_HEADER {
        pos' := pos + BLOCK_HEADER;
        var word := ReadLE(src[pos..pos'], 0, 4);
        ReadLEPrefix(rest, 4, 0, 4);
        assert rest[..4] == src[pos..pos'] && rest[4..] == input[pos'..];
        flow := DecodeCBlockSize(word, room, rest);
      } else {
        stored, stage := [], StoreCBlockSize;
        assert [] + rest == rest;
        flow, pos' := StepStoreCBlockSize(src, pos, room, input);
      }
    }

    /** dstage_storeCBlockSize. */
    method StepStoreCBlockSize(src: seq<byte>, pos: nat, room: nat, ghost input: seq<byte>) returns (flow: Flow, pos': nat)
      requires Valid() && stage == StoreCBlockSize && pos <= |src| && src <= input
      modifies this`stage, this`target, this`stored
      ensures !flow.Fail? ==> PartOf(stage) == Blocks || PartOf(stage) == End
      ensures pos <= pos' <= |src| && (!flow.Fail? ==> Valid()) && flow != Fail(DictionaryTooLong)
      ensures Progress(src, pos, pos', [], room, flow, old(stage))
      ensures Leads(old(Future(input[pos..])), flow, [], input[pos'..])
    {
      hide BlocksOf, Prepend, ReadLE;
      pos' := Store(src, pos, BLOCK_HEADER, input);
      ghost var all := stored + input[pos'..];
      if |stored| < BLOCK_HEADER {
        flow := Stop(BLOCK_HEADER - |stored|);
        PrependNothing(Future(input[pos'..]));
      } else {
        ReadLEPrefix(all, 4, 0, 4);
        assert all[..4] == stored && all[4..] == input[pos'..];
        flow := DecodeCBlockSize(ReadLE(stored, 0, 4), room, all);
      }
    }

    /** The size word in front of a block; `s` is the input from that word on. */
    method DecodeCBlockSize(word: nat, room: nat, ghost s: seq<byte>) returns (flow: Flow)
      requires Settled() && PartOf(stage) == Blocks && Windowed() && |s| >= BLOCK_HEADER && word == ReadLE(s, 0, 4)
      modifies this`stage, this`target
      ensures !flow.Fail? ==> PartOf(stage) == Blocks || PartOf(stage) == End
      ensures !flow.Fail? ==> Valid()
      ensures flow != Fail(DictionaryTooLong)
      ensures flow == Again || flow.Fail? || (flow.Stop? && flow.hint == Hint() && Waiting() && room == 0)
      ensures Leads(BlocksOf(xxh, info, frameRemaining, content, s), flow, [], s[BLOCK_HEADER..])
    {
      BlocksFromSize(xxh, info, frameRemaining, content, word, s);
      hide BlocksOf, Prepend, ReadLE, CompressedOf, StoredOf, SuffixOf, Holds, Flushing, Buffered, Block, Earlier;
      var size := word % 0x8000_0000;
      flow := Again;
      if size == 0 {
        stage := GetSuffix;
      } else if size > info.maxBlock {
        flow := Fail(MaxBlockSizeInvalid);
      } else {
        target := size;
        if word >= 0x8000_0000 {
          stage := CopyDirect;
        } else {
          stage := GetCBlock;
          if room == 0 { flow := Stop(size + BLOCK_HEADER); }
        }
      }
      PrependNothing(Future(s[BLOCK_HEADER..]));
    }

    /** Accounts for `data` that was produced. */
    method Account(data: seq<byte>)
      modifies this`content, this`frameRemaining
      ensures content == old(content) + data
      ensures frameRemaining == Outstanding(info, old(frameRemaining), |data|)
    {
      content := content + data;
      if info.contentSize != 0 { frameRemaining := (frameRemaining - |data|) % 0x1_0000_0000_0000_0000; }
    }

    /** What a stage among the blocks has given to the caller is behind what was given before. */
    twostate predicate Gave(flow: Flow, data: seq<byte>)
      reads this
    {
      !flow.Fail? ==> Valid() && info == old(info) && (PartOf(stage) == Blocks || PartOf(stage) == Flush) && old(Settled())
                      && Delivered() == old(Delivered()) + data
    }

    /** dstage_copyDirect. `at` is the address of the caller's buffer and `out` what is in it. */
    method StepCopyDirect(src: seq<byte>, pos: nat, at: nat, out: seq<byte>, room: nat, ghost input: seq<byte>) returns (flow: Flow, pos': nat, data: seq<byte>)
      requires Valid() && stage == CopyDirect && pos <= |src| && src <= input && EndsWith(content, out)
      modifies this
      ensures pos <= pos' <= |src| && |data| <= room && !flow.Fail? && Gave(flow, data)
      ensures Progress(src, pos, pos', data, room, flow, old(stage))
      ensures Leads(old(Future(input[pos..])), flow, data, input[pos'..])
    {
      hide BlocksOf, Prepend, Outstanding, StoredOf, Holds, EndsWith;
      var size := Min(Min(target, |src| - pos), room);
      pos' := pos + size;
      data := src[pos..pos'];
      ghost var rest, past := input[pos..], content;
      assert rest[..size] == data && rest[size..] == input[pos'..];
      if size == target {
        StoredWhole(xxh, info, frameRemaining, content, target, rest);
        stage, flow := GetCBlockSize, Again;
      } else {
        StoredSplit(xxh, info, frameRemaining, content, target, rest, size);
        target := target - size;
        flow := Stop(target + BLOCK_HEADER);
      }
      Account(data);
      if info.linked {
        UpdateDict(at, out, data, past);
      }
    }

    /** dstage_getCBlock. */
    method StepGetCBlock(src: seq<byte>, pos: nat, at: nat, out: seq<byte>, room: nat, ghost input: seq<byte>) returns (flow: Flow, pos': nat, data: seq<byte>)
      requires Valid() && stage == GetCBlock && pos <= |src| && src <= input && EndsWith(content, out)
      modifies this
      ensures pos <= pos' <= |src| && |data| <= room && Gave(flow, data)
      ensures Progress(src, pos, pos', data, room, flow, old(stage))
      ensures Leads(old(Future(input[pos..])), flow, data, input[pos'..])
      ensures flow == Fail(DictionaryTooLong) ==> info.linked && info == old(info) && |old(content)| >= TWO31
    {
      hide BlocksOf, Prepend, DecodeWith, Holds, EndsWith;
      ghost var rest := input[pos..];
      if |src| - pos < target {
        stored, stage := [], StoreCBlock;
        assert [] + rest == rest;
        PrependNothing(Future(rest));
        return Again, pos, [];
      }
      pos' := pos + target;
      assert rest[..target] == src[pos..pos'] && rest[target..] == input[pos'..];
      flow, data := DecodeCBlock(src[pos..pos'], Behind(src, pos'), at, out, room, rest);
    }

    /** dstage_storeCBlock. */
    method StepStoreCBlock(src: seq<byte>, pos: nat, at: nat, out: seq<byte>, room: nat, ghost input: seq<byte>) returns (flow: Flow, pos': nat, data: seq<byte>)
      requires Valid() && stage == StoreCBlock && pos <= |src| && src <= input && EndsWith(content, out)
      modifies this
      ensures pos <= pos' <= |src| && |data| <= room && Gave(flow, data)
      ensures Progress(src, pos, pos', data, room, flow, old(stage))
      ensures Leads(old(Future(input[pos..])), flow, data, input[pos'..])
      ensures flow == Fail(DictionaryTooLong) ==> info.linked && info == old(info) && |old(content)| >= TWO31
    {
      hide BlocksOf, Prepend, DecodeWith, Holds, EndsWith;
      pos' := Store(src, pos, target, input);
      ghost var all := stored + input[pos'..];
      if |stored| < target {
        flow, data := Stop(target - |stored| + BLOCK_HEADER), [];
        PrependNothing(Future(input[pos'..]));
      } else {
        assert all[..target] == stored && all[target..] == input[pos'..];
        flow, data := DecodeCBlock(stored, 0, at, out, room, all);
      }
    }

    /**
      dstage_decodeCBlock: into the output when a whole block fits there, into a buffer otherwise. `behind` is the byte that
      lies behind the block in memory, which the decoder may look at, and `s` the input from the block on.
     */
    method DecodeCBlock(block: seq<byte>, behind: byte, at: nat, out: seq<byte>, room: nat, ghost s: seq<byte>) returns (flow: Flow, data: seq<byte>)
      requires Settled() && PartOf(stage) == Blocks && Windowed() && 0 < |block| == target <= |s| && s[..target] == block && EndsWith(content, out)
      modifies this
      ensures |data| <= room && Gave(flow, data)
      ensures flow == Again || flow.Fail?
      ensures Leads(old(CompressedOf(xxh, info, frameRemaining, content, target, s)), flow, data, s[|block|..])
      ensures flow == Fail(DictionaryTooLong) ==> info.linked && info == old(info) && |old(content)| >= TWO31
    {
      hide CompressedOf, Holds, EndsWith;
      if info.linked && |DictBytes(tmp, dict)| >= TWO31 {
        LongDict(tmp, dict, content);
        return Fail(DictionaryTooLong), [];
      }
      if room < info.maxBlock {
        flow, data := DecodeIntoTmp(block, behind, s);
      } else {
        flow, data := DecodeIntoDst(block, behind, at, out, s);
      }
    }

    /** dstage_decodeCBlock_intoTmp. */
    method DecodeIntoTmp(block: seq<byte>, behind: byte, ghost s: seq<byte>) returns (flow: Flow, data: seq<byte>)
      requires Settled() && PartOf(stage) == Blocks && Windowed() && 0 < |block| == target <= |s| && s[..target] == block
      modifies this
      ensures data == [] && Gave(flow, data) && (flow == Again || flow.Fail?) && flow != Fail(DictionaryTooLong)
      ensures Leads(old(CompressedOf(xxh, info, frameRemaining, content, target, s)), flow, data, s[|block|..])
    {
      hide BlocksOf, DecodeWith, Outstanding, Holds, Flushing;
      ghost var past := content;
      data := [];
      MakeRoom();
      var decoded := DecodeWindowed(block, behind, dict.InTmp?);
      if decoded.None? {
        return Fail(DecompressionFailed), [];
      }
      Account(decoded.value);
      PutBlock(decoded.value, past);
      flow := Again;
      BlockParts(past, decoded.value, 0, 0);
      assert past + [] == past;
      PrependNothing(Future(s[|block|..]));
    }

    /** dstage_decodeCBlock_intoDst. */
    method DecodeIntoDst(block: seq<byte>, behind: byte, at: nat, out: seq<byte>, ghost s: seq<byte>) returns (flow: Flow, data: seq<byte>)
      requires Settled() && PartOf(stage) == Blocks && Windowed() && 0 < |block| == target <= |s| && s[..target] == block && EndsWith(content, out)
      modifies this
      ensures |data| <= old(info).maxBlock && Gave(flow, data) && (flow == Again || flow.Fail?) && flow != Fail(DictionaryTooLong)
      ensures Leads(old(CompressedOf(xxh, info, frameRemaining, content, target, s)), flow, data, s[|block|..])
    {
      hide BlocksOf, DecodeWith, Outstanding, Holds, EndsWith;
      ghost var past := content;
      var decoded := DecodeWindowed(block, behind, dict.Outside? && dict.addr + |dict.bytes| == at + |out|);
      if decoded.None? {
        return Fail(Generic), [];
      }
      Account(decoded.value);
      flow, data, stage := Again, decoded.value, GetCBlockSize;
      if info.linked {
        UpdateDict(at, out, data, past);
      }
    }

    /** The block is decoded behind the dictionary, which is as good as all that was decoded before. */
    method DecodeWindowed(block: seq<byte>, behind: byte, inFront: bool) returns (decoded: Option<seq<byte>>)
      requires Settled() && 0 < |block| && (info.linked ==> Holds(tmp, dict, content))
      ensures decoded == DecodeWith(Reachable(info, content), block, info.maxBlock)
    {
      hide DecodeWith;
      var bytes := if info.linked then DictBytes(tmp, dict) else [];
      ghost var reach;
      decoded, reach := DecodeWhole(bytes, inFront, block, behind, info.maxBlock);
      if info.linked { WindowIsEnough(bytes, content, block, info.maxBlock); }
    }

    /** Of a long dictionary in the output buffer the end is kept, at the start of the buffer. */
    method CutDict()
      requires Settled() && PartOf(stage) == Blocks && Windowed() && info.linked && dict.InTmp? && 2 * WINDOW < dict.size <= |tmp|
      modifies this`tmp, this`dict
      ensures Settled() && Windowed() && |tmp| == old(|tmp|) && dict == InTmp(0x1_0000)
    {
      hide Holds, Splice, DictBytes, Flushing, Block, Earlier;
      CutHolds(tmp, dict.size, content);
      tmp := Splice(tmp, 0, tmp[dict.size - WINDOW..dict.size]);
      dict := InTmp(WINDOW);
    }

    /** A place for a block is found in the output buffer, behind the dictionary or what is reserved for one. */
    method MakeRoom()
      requires Settled() && PartOf(stage) == Blocks && Windowed()
      modifies this`tmp, this`dict, this`tmpOut
      ensures Settled() && Windowed() && |tmp| == old(|tmp|) && tmpOut + info.maxBlock <= |tmp|
      ensures info.linked ==> Spacious(tmpOut, content) && (dict.InTmp? ==> dict.size == tmpOut)
    {
      if !info.linked {
        return;
      }
      hide Holds, Flushing, Block, Earlier;
      HoldsSize(tmp, dict, content);
      match dict
      case InTmp(size) =>
        if size > 2 * WINDOW {
          CutDict();
        }
        tmpOut := dict.size;
      case Outside(_, bytes) =>
        tmpOut := if |bytes| > WINDOW then WINDOW else |bytes|;
    }

    /** A decoded block is in the output buffer and waits to be given to the caller. */
    method PutBlock(block: seq<byte>, ghost past: seq<byte>)
      requires Settled() && Buffered() && |block| <= info.maxBlock && tmpOut + info.maxBlock <= |tmp| && content == past + block
      requires info.linked ==> Holds(tmp, dict, past) && Spacious(tmpOut, past) && (dict.InTmp? ==> dict.size == tmpOut)
      modifies this`tmp, this`tmpOutSize, this`tmpOutStart, this`stage
      ensures Settled() && Windowed() && stage == FlushOut && Block() == block && Earlier() == past && tmpOutStart == 0
    {
      hide Agree, Spacious;
      SplicePrefix(tmp, tmpOut, block);
      if info.linked && dict.InTmp? { AgreeAppend(tmp[..tmpOut], past, block); }
      tmp := Splice(tmp, tmpOut, block);
      tmpOutSize, tmpOutStart, stage := |block|, 0, FlushOut;
      assert past + block[..0] == past;
    }

    /** dstage_flushOut. */
    method StepFlushOut(src: seq<byte>, pos: nat, at: nat, out: seq<byte>, room: nat, ghost input: seq<byte>) returns (flow: Flow, data: seq<byte>)
      requires Valid() && stage == FlushOut && pos <= |src| && src <= input && EndsWith(Delivered(), out)
      modifies this
      ensures |data| <= room && !flow.Fail? && Gave(flow, data)
      ensures Progress(src, pos, pos, data, room, flow, old(stage))
      ensures Leads(old(Future(input[pos..])), flow, data, input[pos..])
    {
      hide BlocksOf, Prepend, Flushing, Holds, EndsWith, Future, Block, Earlier, Windowed, Buffered;
      ghost var block, earlier := Block(), Earlier();
      BlockLength();
      FlushFuture(input[pos..]);
      ghost var blocks := BlocksOf(xxh, info, frameRemaining, content, input[pos..]);
      data := FlushPart(at, out, room);
      BlockParts(earlier, block, tmpOutStart, |data|);
      PrependPrepend(data, block[tmpOutStart + |data|..], blocks);
      flow := GiveBlock(|data|, input[pos..]);
    }

    lemma BlockLength()
      requires Settled()
      ensures |Block()| == tmpOutSize
    {
    }

    /** As much of the block as there is room for, which the dictionary follows. */
    method FlushPart(at: nat, out: seq<byte>, room: nat) returns (data: seq<byte>)
      requires Valid() && stage == FlushOut && EndsWith(Delivered(), out)
      modifies this`tmp, this`dict
      ensures Settled() && Buffered() && Block() == old(Block()) && Earlier() == old(Earlier()) && |data| == Min(tmpOutSize - tmpOutStart, room)
      ensures data == Block()[tmpOutStart..tmpOutStart + |data|] && content == Earlier() + Block()
      ensures info.linked ==> Flushing(tmp, dict, tmpOut, Block(), tmpOutStart + |data|, Earlier())
    {
      hide Flushing, EndsWith;
      var size := Min(tmpOutSize - tmpOutStart, room);
      data := tmp[tmpOut..tmpOut + tmpOutSize][tmpOutStart..tmpOutStart + size];
      if info.linked {
        UpdateDictWithin(at, out, data);
      }
    }

    lemma FlushFuture(s: seq<byte>)
      requires Settled() && stage == FlushOut
      ensures Future(s) == Prepend(Block()[tmpOutStart..], BlocksOf(xxh, info, frameRemaining, content, s))
    {
    }

    /** A part of the block was given to the caller, and with it perhaps all of it. */
    method GiveBlock(size: nat, ghost rest: seq<byte>) returns (flow: Flow)
      requires Settled() && Buffered() && stage == FlushOut && tmpOutStart + size <= tmpOutSize && content == Earlier() + Block()
      requires info.linked ==> Flushing(tmp, dict, tmpOut, Block(), tmpOutStart + size, Earlier())
      modifies this`tmpOutStart, this`stage
      ensures Valid() && flow == (if tmpOutStart == tmpOutSize then Again else Stop(BLOCK_HEADER)) && tmpOutStart == old(tmpOutStart) + size
      ensures stage == (if flow == Again then GetCBlockSize else FlushOut) && Delivered() == old(Earlier() + Block()[..tmpOutStart + size])
      ensures Future(rest) == Prepend(old(Block()[tmpOutStart + size..]), BlocksOf(xxh, info, frameRemaining, content, rest))
    {
      hide BlocksOf, Prepend, Flushing, Holds;
      ghost var block, earlier := Block(), Earlier();
      tmpOutStart := tmpOutStart + size;
      flow := Stop(BLOCK_HEADER);
      if tmpOutStart == tmpOutSize {
        BlockParts(earlier, block, tmpOutStart, 0);
        PrependNothing(BlocksOf(xxh, info, frameRemaining, content, rest));
        if info.linked { FlushedHolds(tmp, dict, tmpOut, block, earlier); }
        stage, flow := GetCBlockSize, Again;
      }
    }

    /** LZ4F_updateDict, `data` having been put behind `out` in the caller's buffer at `at`, and `past` being what came before. */
    method UpdateDict(at: nat, out: seq<byte>, data: seq<byte>, ghost past: seq<byte>)
      requires info.linked && Buffered() && Holds(tmp, dict, past) && EndsWith(past, out)
      modifies this`tmp, this`dict
      ensures |tmp| == old(|tmp|) && Holds(tmp, dict, past + data)
    {
      hide Agree;
      var handled := Continue(at, out, data, past);
      if handled {
        return;
      }
      ghost var bytes := DictBytes(tmp, dict);
      if dict.InTmp? {
        if dict.size + |data| > |tmp| {
          var keep := WINDOW - |data|;
          KeepAgrees(tmp[..dict.size], past, data, keep);
          var last := tmp[dict.size - keep..dict.size];
          assert tmp[..dict.size][dict.size - keep..] == last;
          tmp := Splice(tmp, 0, last);
          assert tmp[..keep] == last;
          dict := InTmp(keep);
        } else {
          AgreeAppend(bytes, past, data);
        }
        SplicePrefix(tmp, dict.size, data);
        tmp := Splice(tmp, dict.size, data);
        dict := InTmp(dict.size + |data|);
      } else {
        var keep := WINDOW - |data|;
        if keep > |dict.bytes| { keep := |dict.bytes|; }
        KeepAgrees(dict.bytes, past, data, keep);
        var last := dict.bytes[|dict.bytes| - keep..];
        tmp := Splice(tmp, 0, last);
        assert tmp[..keep] == last;
        SplicePrefix(tmp, keep, data);
        tmp := Splice(tmp, keep, data);
        dict := InTmp(keep + |data|);
      }
    }

    /** What LZ4F_updateDict tries first: the dictionary goes on in the caller's buffer, or what is there is long enough to be one. */
    method Continue(at: nat, out: seq<byte>, data: seq<byte>, ghost past: seq<byte>) returns (handled: bool)
      requires EndsWith(past, out) && (dict.Outside? || dict.size == 0 ==> Holds(tmp, dict, past))
      modifies this`dict
      ensures handled ==> dict.Outside? && Holds(tmp, dict, past + data)
      ensures !handled ==> dict == old(dict) && |out| + |data| < WINDOW
    {
      handled := true;
      hide Agree;
      if dict == InTmp(0) || (dict.Outside? && dict.bytes == []) {
        AgreeSize([], past);
        Itself([]);
        dict := Outside(at + |out|, []);
      }
      if dict.Outside? && dict.addr + |dict.bytes| == at + |out| {
        AgreeAppend(dict.bytes, past, data);
        dict := Outside(dict.addr, dict.bytes + data);
        return;
      }
      if |out| + |data| >= WINDOW {
        EndsWithMore(past, out, data);
        RecentAgrees(past + data, out + data);
        dict := Outside(at, out + data);
        return;
      }
      handled := false;
    }

    /** LZ4F_updateDict for a part of the block in the output buffer. */
    method UpdateDictWithin(at: nat, out: seq<byte>, data: seq<byte>)
      requires Settled() && info.linked && Buffered() && stage == FlushOut && tmpOutStart + |data| <= tmpOutSize
      requires data == Block()[tmpOutStart..tmpOutStart + |data|] && Flushing(tmp, dict, tmpOut, Block(), tmpOutStart, Earlier()) && EndsWith(Delivered(), out)
      modifies this`tmp, this`dict
      ensures |tmp| == old(|tmp|) && Settled() && Block() == old(Block()) && Flushing(tmp, dict, tmpOut, Block(), tmpOutStart + |data|, Earlier())
    {
      hide Flushing, Holds, EndsWith, DictBytes, Windowed, Buffered;
      ghost var block, earlier, was := Block(), Earlier(), dict;
      ghost var more := tmpOutStart + |data|;
      if dict.Outside? || dict.size == 0 { FlushingHolds(tmp, dict, tmpOut, block, tmpOutStart, earlier); }
      var handled := Continue(at, out, data, earlier + block[..tmpOutStart]);
      if handled {
        FlushingElsewhere(tmp, was, tmpOut, block, tmpOutStart, more, earlier, dict);
        return;
      }
      if dict.Outside? {
        MoveInFront();
      } else {
        FlushingSize(tmp, dict, tmpOut, block, tmpOutStart, earlier);
      }
      FlushingMore(tmp, tmpOut, block, tmpOutStart, more, earlier);
      dict := InTmp(dict.size + |data|);
    }

    /** The end of what came before the block in the output buffer is put in front of it, and both make the dictionary. */
    method MoveInFront()
      requires Settled() && info.linked && stage == FlushOut && dict.Outside? && Flushing(tmp, dict, tmpOut, Block(), tmpOutStart, Earlier())
      modifies this`tmp, this`dict
      ensures |tmp| == old(|tmp|) && Settled() && Block() == old(Block()) && dict == InTmp(tmpOut + tmpOutStart)
      ensures Flushing(tmp, dict, tmpOut, Block(), tmpOutStart, Earlier())
    {
      hide Flushing, Filled, InFront;
      ghost var block, earlier := Block(), Earlier();
      assert |block| == tmpOutSize;
      FilledFlushing(tmp, dict.addr, dict.bytes, tmpOut, block, tmpOutStart, earlier);
      FlushingBlock(Filled(tmp, dict.bytes, tmpOut, tmpOutSize, tmpOutStart), InTmp(tmpOut + tmpOutStart), tmpOut, block, tmpOutStart, earlier);
      tmp := Filled(tmp, dict.bytes, tmpOut, tmpOutSize, tmpOutStart);
      dict := InTmp(tmpOut + tmpOutStart);
    }

    /** At the end of a call the dictionary is moved out of the caller's memory, unless that is known to be stable. */
    method PreserveDict(ghost all: seq<byte>, ghost linked: bool, ghost rest: seq<byte>)
      requires Valid() && Tracks(all, linked, rest)
      modifies this`tmp, this`dict, this`tmpOut
      ensures Valid() && Tracks(all, linked, rest) && Future(rest) == old(Future(rest))
    {
      hide Flushing, Holds, BlocksOf, LinkedFrame;
      if info.linked && dict.Outside? {
        if stage == FlushOut {
          MoveInFront();
        } else if PartOf(stage) == Blocks {
          var size := if |dict.bytes| > WINDOW then WINDOW else |dict.bytes|;
          SavedHolds(tmp, dict.addr, dict.bytes, content, size);
          tmp := Splice(tmp, 0, dict.bytes[|dict.bytes| - size..]);
          dict, tmpOut := InTmp(size), size;
        }
      }
    }

    /** dstage_getSuffix. */
    method StepGetSuffix(src: seq<byte>, pos: nat, ghost input: seq<byte>) returns (flow: Flow, pos': nat)
      requires Valid() && stage == GetSuffix && pos <= |src| && src <= input
      modifies this`stage, this`stored
      ensures flow.Stop? ==> stage == StoreSuffix
      ensures pos <= pos' <= |src| && (!flow.Fail? ==> Valid()) && flow != Again && flow != Fail(DictionaryTooLong)
      ensures Progress(src, pos, pos', [], 1, flow, old(stage))
      ensures Leads(old(Future(input[pos..])), flow, [], input[pos'..])
    {
      hide ReadLE;
      ghost var rest := input[pos..];
      if frameRemaining != 0 {
        return Fail(FrameSizeWrong), pos;
      }
      if !info.checksum {
        stage := GetHeader;
        return Done, pos;
      }
      if |src| - pos < 4 {
        stored, stage := [], StoreSuffix;
        assert [] + rest == rest;
        flow, pos' := StepStoreSuffix(src, pos, input);
      } else {
        pos' := pos + 4;
        ReadLEPrefix(rest, 4, 0, 4);
        assert rest[..4] == src[pos..pos'] && rest[4..] == input[pos'..];
        flow := CheckSuffix(ReadLE(src[pos..pos'], 0, 4), rest);
      }
    }

    /** dstage_storeSuffix. */
    method StepStoreSuffix(src: seq<byte>, pos: nat, ghost input: seq<byte>) returns (flow: Flow, pos': nat)
      requires Valid() && stage == StoreSuffix && pos <= |src| && src <= input
      modifies this`stage, this`stored
      ensures flow.Stop? ==> stage == StoreSuffix
      ensures pos <= pos' <= |src| && (!flow.Fail? ==> Valid()) && flow != Again && flow != Fail(DictionaryTooLong)
      ensures Progress(src, pos, pos', [], 1, flow, old(stage))
      ensures Leads(old(Future(input[pos..])), flow, [], input[pos'..])
    {
      hide ReadLE;
      pos' := Store(src, pos, 4, input);
      ghost var all := stored + input[pos'..];
      if |stored| < 4 {
        flow := Stop(4 - |stored|);
        PrependNothing(Future(input[pos'..]));
      } else {
        ReadLEPrefix(all, 4, 0, 4);
        assert all[..4] == stored && all[4..] == input[pos'..];
        flow := CheckSuffix(ReadLE(stored, 0, 4), all);
      }
    }

    /** The content checksum; `s` is the input from it on. */
    method CheckSuffix(word: nat, ghost s: seq<byte>) returns (flow: Flow)
      requires Settled() && frameRemaining == 0 && info.checksum && |s| >= 4 && word == ReadLE(s, 0, 4)
      modifies this`stage
      ensures flow == Done || flow.Fail?
      ensures !flow.Fail? ==> Valid()
      ensures flow != Fail(DictionaryTooLong)
      ensures Leads(SuffixOf(xxh, info, frameRemaining, content, s), flow, [], s[4..])
    {
      hide ReadLE;
      if word != xxh(content) {
        return Fail(ContentChecksumInvalid);
      }
      stage, flow := GetHeader, Done;
    }

    /** dstage_getSFrameSize. */
    method StepGetSFrameSize(src: seq<byte>, pos: nat, ghost input: seq<byte>) returns (flow: Flow, pos': nat)
      requires Valid() && stage == GetSFrameSize && pos <= |src| && src <= input
      modifies this`stage, this`target, this`stored
      ensures PartOf(stage) == Skippable
      ensures pos <= pos' <= |src| && Valid() && !flow.Fail?
      ensures Progress(src, pos, pos', [], 1, flow, old(stage))
      ensures Leads(old(Future(input[pos..])), flow, [], input[pos'..])
    {
      hide ReadLE;
      ghost var rest := input[pos..];
      if |src| - pos >= 4 {
        pos' := pos + 4;
        ReadLEPrefix(rest, 4, 0, 4);
        assert rest[..4] == src[pos..pos'] && rest[4..] == input[pos'..];
        target := ReadLE(src[pos..pos'], 0, 4);
        flow, stage := Again, SkipSkippable;
        PrependNothing(Future(input[pos'..]));
      } else {
        stored, stage := [], StoreSFrameSize;
        assert [] + rest == rest;
        flow, pos' := StepStoreSFrameSize(src, pos, input);
      }
    }

    /** dstage_storeSFrameSize. */
    method StepStoreSFrameSize(src: seq<byte>, pos: nat, ghost input: seq<byte>) returns (flow: Flow, pos': nat)
      requires Valid() && stage == StoreSFrameSize && pos <= |src| && src <= input
      modifies this`stage, this`target, this`stored
      ensures PartOf(stage) == Skippable
      ensures pos <= pos' <= |src| && Valid() && !flow.Fail?
      ensures Progress(src, pos, pos', [], 1, flow, old(stage))
      ensures Leads(old(Future(input[pos..])), flow, [], input[pos'..])
    {
      hide ReadLE;
      pos' := Store(src, pos, 4, input);
      ghost var all := stored + input[pos'..];
      if |stored| < 4 {
        flow := Stop(4 - |stored|);
      } else {
        ReadLEPrefix(all, 4, 0, 4);
        assert all[..4] == stored && all[4..] == input[pos'..];
        target := ReadLE(stored, 0, 4);
        flow, stage := Again, SkipSkippable;
      }
      PrependNothing(Future(input[pos'..]));
    }

    /** dstage_skipSkippable. */
    method StepSkipSkippable(src: seq<byte>, pos: nat, ghost input: seq<byte>) returns (flow: Flow, pos': nat)
      requires Valid() && stage == SkipSkippable && pos <= |src| && src <= input
      modifies this`stage, this`target
      ensures pos <= pos' <= |src| && Valid() && !flow.Fail? && flow != Again && (flow.Stop? ==> stage == SkipSkippable)
      ensures Progress(src, pos, pos', [], 1, flow, old(stage))
      ensures Leads(old(Future(input[pos..])), flow, [], input[pos'..])
    {
      var size := Min(target, |src| - pos);
      pos' := pos + size;
      ghost var rest := input[pos..];
      assert rest[size..] == input[pos'..];
      target := target - size;
      if target > 0 {
        flow := Stop(target);
        assert size + target <= |rest| ==> rest[size + target..] == rest[size..][target..];
        PrependNothing(Future(input[pos'..]));
      } else {
        stage, flow := GetHeader, Done;
      }
    }

    /** A stage in which blocks are taken and given to the caller. */
    method StepBlock(src: seq<byte>, pos: nat, at: nat, out: seq<byte>, room: nat, ghost input: seq<byte>) returns (flow: Flow, pos': nat, data: seq<byte>)
      requires Valid() && pos <= |src| && src <= input && EndsWith(Delivered(), out)
      requires stage == CopyDirect || stage == GetCBlock || stage == StoreCBlock || stage == FlushOut
      modifies this
      ensures pos <= pos' <= |src| && |data| <= room && Gave(flow, data)
      ensures Progress(src, pos, pos', data, room, flow, old(stage))
      ensures Leads(old(Future(input[pos..])), flow, data, input[pos'..])
      ensures flow == Fail(DictionaryTooLong) ==> old(info.linked) && |old(Delivered())| >= TWO31
    {
      hide Leads, Future, EndsWith, Gave, Progress, Windowed;
      match stage
      case CopyDirect => flow, pos', data := StepCopyDirect(src, pos, at, out, room, input);
      case GetCBlock => flow, pos', data := StepGetCBlock(src, pos, at, out, room, input);
      case StoreCBlock => flow, pos', data := StepStoreCBlock(src, pos, at, out, room, input);
      case FlushOut => flow, data := StepFlushOut(src, pos, at, out, room, input); pos' := pos;
    }

    /** A stage in which nothing is given to the caller. */
    method StepQuiet(src: seq<byte>, pos: nat, room: nat, ghost input: seq<byte>, ghost all: seq<byte>, ghost linked: bool) returns (flow: Flow, pos': nat)
      requires Valid() && pos <= |src| && src <= input && Tracks(all, linked, input[pos..])
      requires !(stage == CopyDirect || stage == GetCBlock || stage == StoreCBlock || stage == FlushOut)
      modifies this
      ensures pos <= pos' <= |src| && (!flow.Fail? ==> Valid()) && flow != Fail(DictionaryTooLong)
      ensures flow == Again || flow.Stop? ==> Tracks(all, linked, input[pos'..])
      ensures Progress(src, pos, pos', [], room, flow, old(stage))
      ensures Leads(old(Future(input[pos..])), flow, [], input[pos'..])
    {
      hide Leads, Future, LinkedFrame, Valid;
      ValidIsSettled();
      match PartOf(stage)
      case Header => flow, pos' := StepHeader(src, pos, room, input, linked);
      case Blocks => flow, pos' := StepSize(src, pos, room, input);
      case End => flow, pos' := StepEnd(src, pos, input);
      case Skippable => flow, pos' := StepSkippable(src, pos, input);
      if !flow.Fail? { ValidIsSettled(); }
    }

    method StepHeader(src: seq<byte>, pos: nat, room: nat, ghost input: seq<byte>, ghost linked: bool) returns (flow: Flow, pos': nat)
      requires Valid() && pos <= |src| && src <= input && Tracks([], linked, input[pos..]) && PartOf(stage) == Header
      modifies this
      ensures pos <= pos' <= |src| && (!flow.Fail? ==> Valid()) && flow != Fail(DictionaryTooLong)
      ensures flow == Again || flow.Stop? ==> Tracks([], linked, input[pos'..])
      ensures Progress(src, pos, pos', [], room, flow, old(stage))
      ensures Leads(old(Future(input[pos..])), flow, [], input[pos'..])
    {
      hide Leads, Future, LinkedFrame, Valid;
      ValidIsSettled();
      match stage
      case GetHeader => flow, pos' := StepGetHeader(src, pos, input, linked);
      case StoreHeader => flow, pos' := StepStoreHeader(src, pos, input, linked);
      case Init => flow, pos' := StepInit(src, pos, room, input);
      if !flow.Fail? { ValidIsSettled(); }
    }

    method StepSize(src: seq<byte>, pos: nat, room: nat, ghost input: seq<byte>) returns (flow: Flow, pos': nat)
      requires Valid() && pos <= |src| && src <= input && (stage == GetCBlockSize || stage == StoreCBlockSize)
      modifies this`stage, this`target, this`stored
      ensures pos <= pos' <= |src| && (!flow.Fail? ==> Valid()) && flow != Fail(DictionaryTooLong)
      ensures !flow.Fail? ==> PartOf(stage) == Blocks || PartOf(stage) == End
      ensures Progress(src, pos, pos', [], room, flow, old(stage))
      ensures Leads(old(Future(input[pos..])), flow, [], input[pos'..])
    {
      hide Leads, Future, Valid, Progress;
      ValidIsSettled();
      if stage == GetCBlockSize {
        flow, pos' := StepGetCBlockSize(src, pos, room, input);
      } else {
        flow, pos' := StepStoreCBlockSize(src, pos, room, input);
      }
    }

    method StepEnd(src: seq<byte>, pos: nat, ghost input: seq<byte>) returns (flow: Flow, pos': nat)
      requires Valid() && pos <= |src| && src <= input && PartOf(stage) == End
      modifies this`stage, this`stored
      ensures pos <= pos' <= |src| && (!flow.Fail? ==> Valid()) && flow != Fail(DictionaryTooLong) && flow != Again
      ensures flow.Stop? ==> stage == StoreSuffix
      ensures Progress(src, pos, pos', [], 1, flow, old(stage))
      ensures Leads(old(Future(input[pos..])), flow, [], input[pos'..])
    {
      hide Leads, Future, Valid, Progress;
      ValidIsSettled();
      if stage == GetSuffix {
        flow, pos' := StepGetSuffix(src, pos, input);
      } else {
        flow, pos' := StepStoreSuffix(src, pos, input);
      }
    }

    method StepSkippable(src: seq<byte>, pos: nat, ghost input: seq<byte>) returns (flow: Flow, pos': nat)
      requires Valid() && pos <= |src| && src <= input && PartOf(stage) == Skippable
      modifies this`stage, this`target, this`stored
      ensures pos <= pos' <= |src| && Valid() && !flow.Fail? && (flow != Done ==> PartOf(stage) == Skippable)
      ensures Progress(src, pos, pos', [], 1, flow, old(stage))
      ensures Leads(old(Future(input[pos..])), flow, [], input[pos'..])
    {
      hide Leads, Future, Valid, Progress;
      ValidIsSettled();
      match stage
      case GetSFrameSize => flow, pos' := StepGetSFrameSize(src, pos, input);
      case StoreSFrameSize => flow, pos' := StepStoreSFrameSize(src, pos, input);
      case SkipSkippable => flow, pos' := StepSkipSkippable(src, pos, input);
    }

    /** One stage, whichever it is. `all` is what was given to the caller of the frame, `out` what of it in this call. */
    method Step(src: seq<byte>, pos: nat, at: nat, out: seq<byte>, room: nat, ghost input: seq<byte>, ghost all: seq<byte>, ghost linked: bool)
      returns (flow: Flow, pos': nat, data: seq<byte>)
      requires Valid() && pos <= |src| && src <= input && Tracks(all, linked, input[pos..]) && EndsWith(all, out)
      modifies this
      ensures pos <= pos' <= |src| && |data| <= room && (!flow.Fail? ==> Valid())
      ensures flow == Again || flow.Stop? ==> Tracks(all + data, linked, input[pos'..])
      ensures Progress(src, pos, pos', data, room, flow, old(stage))
      ensures Leads(old(Future(input[pos..])), flow, data, input[pos'..])
      ensures flow == Fail(DictionaryTooLong) ==> linked && |all| >= TWO31
    {
      hide Leads, Future, EndsWith, LinkedFrame, Valid, Progress;
      ValidIsSettled();
      if stage == CopyDirect || stage == GetCBlock || stage == StoreCBlock || stage == FlushOut {
        flow, pos', data := StepBlock(src, pos, at, out, room, input);
      } else {
        data := [];
        assert all + [] == all;
        flow, pos' := StepQuiet(src, pos, room, input, all, linked);
      }
    }

    /**
      LZ4F_decompress: runs stages until one of them asks for more input or room, the frame ends, or decoding fails. The
      bytes of `input` behind `src` have not been seen yet, and `all` was given to the caller of the frame before. A call that
      is given both input and room and asks for more has consumed or produced something. The caller's buffer is at `at`, and
      `stable` says that what is put there stays there.
     */
    method Decompress(src: seq<byte>, at: nat, capacity: nat, stable: bool, ghost input: seq<byte>, ghost all: seq<byte>, ghost linked: bool)
      returns (flow: Flow, consumed: nat, out: seq<byte>)
      requires Valid() && src <= input && Tracks(all, linked, input)
      modifies this
      ensures flow != Again && consumed <= |src| && |out| <= capacity
      ensures !flow.Fail? ==> Valid()
      ensures flow.Stop? ==> Tracks(all + out, linked, input[consumed..])
      ensures flow.Fail? ==> consumed == 0 && out == []
      ensures flow.Stop? ==> flow.hint == Hint() > 0 && Waiting() && (consumed > 0 || out != [] || src == [] || capacity == 0)
      ensures Leads(old(Future(input)), flow, out, input[consumed..])
      ensures flow == Fail(DictionaryTooLong) && old(Future(input)).Content? ==> linked && |all| + |old(Future(input)).out| >= TWO31
    {
      hide Future, Prepend, Tracks, EndsWith, Settled, Windowed;
      consumed, out := 0, [];
      ghost var whole := Future(input);
      assert input[0..] == input;
      PrependNothing(whole);
      NothingGiven(all);
      while true
        invariant Valid() && consumed <= |src| && |out| <= capacity
        invariant Tracks(all + out, linked, input[consumed..]) && EndsWith(all + out, out)
        invariant whole == Prepend(out, Future(input[consumed..]))
        decreases |src| - consumed, Rank(stage)
      {
        var data;
        ghost var before := Future(input[consumed..]);
        ghost var soFar, pos := out, consumed;
        flow, consumed, data := Step(src, consumed, at, out, capacity - |out|, input, all + out, linked);
        out := out + data;
        PrependLeads(whole, soFar, before, flow, data, input[consumed..]);
        if flow.Fail? {
          PrependLonger(soFar, before);
          return flow, 0, [];
        }
        EndsWithMore(all + soFar, soFar, data);
        assert all + soFar + data == all + out;
        if flow != Again {
          if !stable && flow.Stop? {
            PreserveDict(all + out, linked, input[consumed..]);
          }
          return;
        }
      }
    }

    lemma PrependLeads(whole: Decoded, soFar: seq<byte>, before: Decoded, flow: Flow, data: seq<byte>, rest: seq<byte>)
      requires whole == Prepend(soFar, before) && Leads(before, flow, data, rest)
      ensures Leads(whole, flow, soFar + data, rest)
    {
      hide Future;
      if flow == Again || flow.Stop? { PrependPrepend(soFar, data, Future(rest)); }
    }
  }

  /** A block of which a part more is given to the caller. */
  lemma BlockParts(earlier: seq<byte>, block: seq<byte>, start: nat, size: nat)
    requires start + size <= |block|
    ensures block[start..] == block[start..start + size] + block[start + size..]
    ensures earlier + block[..start + size] == earlier + block[..start] + block[start..start + size]
    ensures start + size == |block| ==> earlier + block[..start + size] == earlier + block && block[start + size..] == []
  {
    assert block[..start + size] == block[..start] + block[start..start + size];
  }

  lemma PrependLonger(data: seq<byte>, r: Decoded)
    ensures Prepend(data, r).Content? ==> |Prepend(data, r).out| >= |data|
  {
  }

  lemma NothingGiven(all: seq<byte>)
    ensures all + [] == all && EndsWith(all + [], [])
  {
  }

  /** A call: how many more bytes of input it is given, how many bytes of room, where, and whether they are left as they are. */
  datatype Call = Call(input: nat, room: nat, at: nat, stable: bool)

  /** `context` has consumed `frame` up to `consumed` and produced `out`, the beginning of what the frame decodes to. */
  ghost predicate Session(context: Context, frame: seq<byte>, consumed: nat, out: seq<byte>, whole: Decoded)
    reads context
  {
    && context.Valid() && context.Waiting() && consumed <= |frame| && whole == Prepend(out, context.Future(frame[consumed..]))
    && context.Tracks(out, LinkedFrame(context.xxh, frame), frame[consumed..])
  }

  lemma SessionStarts(context: Context, frame: seq<byte>)
    requires context.Valid() && context.stage == GetHeader && context.frameRemaining == 0
    ensures Session(context, frame, 0, [], FrameOf(context.xxh, 0, frame))
  {
    assert frame[0..] == frame;
    PrependNothing(FrameOf(context.xxh, 0, frame));
  }

  /** In a session the output is the beginning of the content, and a frame that has content needs further input. */
  lemma SessionGoesOn(context: Context, frame: seq<byte>, consumed: nat, out: seq<byte>, whole: Decoded)
    requires Session(context, frame, consumed, out, whole)
    ensures consumed == |frame| ==> whole == Unfinished
    ensures whole.Content? ==> out <= whole.out
  {
    hide Context.Future, Context.Tracks;
    context.WaitingNeedsInput();
    assert frame[|frame|..] == [];
  }

  /** One call of a session, with that much more input or what is left of it. */
  method Feed(context: Context, frame: seq<byte>, consumed: nat, out: seq<byte>, call: Call, ghost whole: Decoded)
    returns (flow: Flow, consumed': nat, out': seq<byte>)
    requires Session(context, frame, consumed, out, whole)
    modifies context
    ensures flow != Again && consumed <= consumed' <= |frame| && out <= out'
    ensures flow.Stop? ==> Session(context, frame, consumed', out', whole)
    ensures flow.Stop? && call.input > 0 && call.room > 0 && consumed < |frame| ==> consumed' > consumed || |out'| > |out|
    ensures flow.Fail? && flow.error != DictionaryTooLong ==> whole.Broken? && Blames(flow.error, whole.error)
    ensures flow == Fail(DictionaryTooLong) && whole.Content? ==> LinkedFrame(context.xxh, frame) && |whole.out| >= TWO31
    ensures flow.Done? ==> whole == Content(out', frame[consumed'..])
  {
    hide Context.Future, Prepend, Context.Valid, Context.Waiting, Context.Tracks, LinkedFrame;
    var input := frame[consumed..];
    context.ValidIsSettled();
    ghost var before := context.Future(input);
    PrependSize(out, before);
    var size, produced;
    flow, size, produced := context.Decompress(input[..Min(call.input, |input|)], call.at, call.room, call.stable, input, out, LinkedFrame(context.xxh, frame));
    context.PrependLeads(whole, out, before, flow, produced, input[size..]);
    assert input[size..] == frame[consumed + size..];
    consumed', out' := consumed + size, out + produced;
  }

  lemma PrependSize(data: seq<byte>, r: Decoded)
    ensures Prepend(data, r).Content? ==> r.Content? && |Prepend(data, r).out| == |data| + |r.out|
  {
  }

  /**
    A frame fed to a fresh context in pieces. Whatever the calls, a frame that is completed has produced the content of the
    frame and consumed exactly the frame, a failure is the error of the frame, and until then the output is the beginning
    of the content. Bytes that are all consumed without either are an unfinished frame. Only for a linked frame of 2^31 bytes or more may a call end with a dictionary that is too long.
   */
  method DecodeInPieces(xxh: Checksum, frame: seq<byte>, calls: seq<Call>) returns (flow: Flow, consumed: nat, out: seq<byte>)
    ensures consumed <= |frame|
    ensures flow.Fail? && flow.error != DictionaryTooLong ==>
              FrameOf(xxh, 0, frame).Broken? && Blames(flow.error, FrameOf(xxh, 0, frame).error)
    ensures flow == Fail(DictionaryTooLong) && FrameOf(xxh, 0, frame).Content? ==>
              LinkedFrame(xxh, frame) && |FrameOf(xxh, 0, frame).out| >= TWO31
    ensures flow.Done? ==> FrameOf(xxh, 0, frame) == Content(out, frame[consumed..])
    ensures !flow.Fail? && !flow.Done? && consumed == |frame| ==> FrameOf(xxh, 0, frame) == Unfinished
    ensures !flow.Fail? && FrameOf(xxh, 0, frame).Content? ==> out <= FrameOf(xxh, 0, frame).out
  {
    hide FrameOf, Session, LinkedFrame;
    var context := new Context(xxh);
    flow, consumed, out := Again, 0, [];
    ghost var whole := FrameOf(xxh, 0, frame);
    SessionStarts(context, frame);
    for i := 0 to |calls|
      invariant consumed <= |frame| && !flow.Fail? && !flow.Done?
      invariant Session(context, frame, consumed, out, whole)
    {
      flow, consumed, out := Feed(context, frame, consumed, out, calls[i], whole);
      if flow.Fail? || flow.Done? {
        return;
      }
    }
    SessionGoesOn(context, frame, consumed, out, whole);
  }

  /**
    Total correctness: as long as calls that are given both input and room keep coming, `next` naming one from any call on, a
    valid frame is decoded completely in finitely many calls, whatever the amounts and whatever the calls between them lack.
    A linked frame must be shorter than 2^31 bytes.
   */
  method DecodeCompletely(xxh: Checksum, frame: seq<byte>, call: nat -> Call, ghost next: nat -> nat) returns (consumed: nat, out: seq<byte>)
    requires FrameOf(xxh, 0, frame).Content? && (LinkedFrame(xxh, frame) ==> |FrameOf(xxh, 0, frame).out| < TWO31)
    requires forall i: nat :: next(i) >= i && call(next(i)).input > 0 && call(next(i)).room > 0
    ensures consumed <= |frame| && FrameOf(xxh, 0, frame) == Content(out, frame[consumed..])
  {
    hide FrameOf, Session, LinkedFrame;
    var context := new Context(xxh);
    consumed, out := 0, [];
    ghost var whole := FrameOf(xxh, 0, frame);
    SessionStarts(context, frame);
    var calls: nat := 0;
    ghost var due := next(0);
    while true
      invariant Session(context, frame, consumed, out, whole)
      invariant calls <= due && call(due).input > 0 && call(due).room > 0
      decreases |frame| - consumed, |whole.out| - |out|, due - calls
    {
      var flow;
      SessionGoesOn(context, frame, consumed, out, whole);
      flow, consumed, out := Feed(context, frame, consumed, out, call(calls), whole);
      calls := calls + 1;
      if flow.Done? {
        return;
      }
      if due < calls { due := next(calls); }
      SessionGoesOn(context, frame, consumed, out, whole);
    }
  }
}
