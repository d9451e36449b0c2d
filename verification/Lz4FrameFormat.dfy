/**
  The LZ4 frame format as lz4frame.c reads it: what a whole frame decodes to, block by block. Linked blocks refer to the
  content before them. The checksum XXH32 is a parameter `xxh` from the hashed bytes to a 32-bit value.
 */
module Lz4FrameFormat {
  import opened Wrappers
  import opened Bytes
  import opened Lz4Dictionary

  const MAGIC := 0x184D2204
  const MAGIC_SKIPPABLE := 0x184D2A5   // the upper 28 bits of a skippable frame's magic number
  const MIN_HEADER := 7
  const MAX_HEADER := 15
  const BLOCK_HEADER := 4
  const LARGEST_BLOCK := 0x40_0000

  type Checksum = seq<byte> -> nat

  datatype Error =
    | FrameTypeUnknown | ReservedFlagSet | HeaderVersionWrong | BlockChecksumUnsupported | MaxBlockSizeInvalid
    | HeaderChecksumInvalid | FrameSizeWrong | ContentChecksumInvalid | DecompressionFailed | Generic | DictionaryTooLong

  /**
    What a frame header says: whether a content checksum follows, the content size (0 when absent), the block size limit, and
    whether blocks refer to earlier ones.
   */
  datatype Info = Info(checksum: bool, sized: bool, contentSize: nat, maxBlock: nat, linked: bool)

  datatype HeaderResult = Refused(error: Error) | Incomplete | SkippableFrame | FrameHeader(info: Info, size: nat)

  /** LZ4F_getBlockSize for the identifiers 4 to 7. */
  function BlockSize(id: nat): (r: nat)
    requires 4 <= id <= 7
    ensures 0 < r <= LARGEST_BLOCK
  {
    if id == 4 then 0x1_0000 else if id == 5 then 0x4_0000 else if id == 6 then 0x10_0000 else 0x40_0000
  }

  /** LZ4F_headerChecksum. */
  function HeaderChecksum(xxh: Checksum, s: seq<byte>): (r: nat) {
    xxh(s) / 256 % 256
  }

  /** LZ4F_decodeHeader, on the bytes at hand. */
  function DecodeHeader(xxh: Checksum, s: seq<byte>): (r: HeaderResult)
    requires |s| >= MIN_HEADER
    ensures r.FrameHeader? ==> MIN_HEADER <= r.size <= |s| && 0 < r.info.maxBlock <= LARGEST_BLOCK
    ensures r.Incomplete? ==> |s| < MAX_HEADER
    ensures r != Refused(DictionaryTooLong)
  {
    if ReadLE(s, 0, 4) / 16 == MAGIC_SKIPPABLE then SkippableFrame
    else if ReadLE(s, 0, 4) != MAGIC then Refused(FrameTypeUnknown)
    else if s[4] % 4 != 0 then Refused(ReservedFlagSet)
    else if s[4] / 64 != 1 then Refused(HeaderVersionWrong)
    else if s[4] / 16 % 2 != 0 then Refused(BlockChecksumUnsupported)
    else
      var sized := s[4] / 8 % 2 == 1;
      var size := if sized then MAX_HEADER else MIN_HEADER;
      if |s| < size then Incomplete
      else if s[5] / 128 != 0 then Refused(ReservedFlagSet)
      else if s[5] / 16 % 8 < 4 then Refused(MaxBlockSizeInvalid)
      else if s[5] % 16 != 0 then Refused(ReservedFlagSet)
      else if HeaderChecksum(xxh, s[4..size - 1]) != s[size - 1] then Refused(HeaderChecksumInvalid)
      else FrameHeader(Info(s[4] / 4 % 2 == 1, sized, if sized then ReadLE(s, 6, 8) else 0, BlockSize(s[5] / 16 % 8), s[4] / 32 % 2 == 0), size)
  }

  /** Once the bytes at hand decide the header, further bytes do not change the decision. */
  lemma HeaderStable(xxh: Checksum, s: seq<byte>, t: seq<byte>)
    requires |s| >= MIN_HEADER && s <= t && !DecodeHeader(xxh, s).Incomplete?
    ensures DecodeHeader(xxh, t) == DecodeHeader(xxh, s)
  {
    assert s == t[..|s|];
    ReadLEPrefix(t, |s|, 0, 4);
    if |s| >= 15 {
      ReadLEPrefix(t, |s|, 6, 8);
      assert s[4..14] == t[4..14];
    }
    assert s[4..6] == t[4..6];
  }

  // ---------------------------------------------------------------------------------------------
  // Reference decoding
  // ---------------------------------------------------------------------------------------------

  /** The content still to come and what follows the frame; or the bytes end within a frame; or there is an error in it. */
  datatype Decoded = Content(out: seq<byte>, left: seq<byte>) | Unfinished | Broken(error: Error)

  /** `data` produced before the content of `r`. */
  function Prepend(data: seq<byte>, r: Decoded): Decoded {
    match r
    case Content(out, left) => Content(data + out, left)
    case _ => r
  }

  lemma PrependPrepend(a: seq<byte>, b: seq<byte>, r: Decoded)
    ensures Prepend(a, Prepend(b, r)) == Prepend(a + b, r)
  {
    if r.Content? { assert a + (b + r.out) == a + b + r.out; }
  }

  lemma PrependNothing(r: Decoded)
    ensures Prepend([], r) == r
  {
    if r.Content? { assert [] + r.out == r.out; }
  }

  /** The announced content size still outstanding after `n` more bytes, in 64-bit arithmetic. */
  function Outstanding(info: Info, remaining: nat, n: nat): (r: nat) {
    if info.contentSize == 0 then remaining else (remaining - n) % 0x1_0000_0000_0000_0000
  }

  /** The end of a frame: the announced size is reached and the checksum, if any, is right. */
  function SuffixOf(xxh: Checksum, info: Info, remaining: nat, before: seq<byte>, s: seq<byte>): Decoded {
    if remaining != 0 then Broken(FrameSizeWrong)
    else if !info.checksum then Content([], s)
    else if |s| < 4 then Unfinished
    else if ReadLE(s, 0, 4) != xxh(before) then Broken(ContentChecksumInvalid)
    else Content([], s[4..])
  }

  /** The blocks of a frame behind the content before them, each behind its size, up to a size of 0, then the end of the frame. */
  function BlocksOf(xxh: Checksum, info: Info, remaining: nat, before: seq<byte>, s: seq<byte>): Decoded
    decreases |s|
  {
    if |s| < BLOCK_HEADER then Unfinished
    else
      var word := ReadLE(s, 0, 4);
      var size := word % 0x8000_0000;
      var body := s[BLOCK_HEADER..];
      if size == 0 then SuffixOf(xxh, info, remaining, before, body)
      else if size > info.maxBlock then Broken(MaxBlockSizeInvalid)
      else if |body| < size then Unfinished
      else
        var data := BlockContent(info, before, word, body[..size]);
        if data.None? then Broken(DecompressionFailed)
        else Prepend(data.value, BlocksOf(xxh, info, Outstanding(info, remaining, |data.value|),
                                          before + data.value, body[size..]))
  }

  /** The content of one block: the top bit of its size says that it is stored as it is. */
  function BlockContent(info: Info, before: seq<byte>, word: nat, block: seq<byte>): Option<seq<byte>> {
    if word >= 0x8000_0000 then Some(block) else DecodeWith(Reachable(info, before), block, info.maxBlock)
  }

  /** What a block may refer to. */
  function Reachable(info: Info, before: seq<byte>): (r: seq<byte>) {
    if info.linked then before else []
  }

  /** A skippable frame behind its magic number: a size and as many bytes of no interest. */
  function SkippableOf(s: seq<byte>): Decoded {
    if |s| < 4 then Unfinished else SkipOf(ReadLE(s, 0, 4), s[4..])
  }

  function SkipOf(n: nat, s: seq<byte>): Decoded {
    if |s| < n then Unfinished else Content([], s[n..])
  }

  /** A whole frame. `remaining` is what an earlier frame left in the context; it counts when the header has no content size. */
  function FrameOf(xxh: Checksum, remaining: nat, s: seq<byte>): Decoded {
    if |s| < MIN_HEADER then Unfinished
    else match DecodeHeader(xxh, s)
      case Refused(error) => Broken(error)
      case Incomplete => Unfinished
      case SkippableFrame => SkippableOf(s[4..])
      case FrameHeader(info, size) => BlocksOf(xxh, info, if info.sized then info.contentSize else remaining, [], s[size..])
  }

  /** The rest of a stored block, `n` bytes of it, and then the other blocks. */
  function StoredOf(xxh: Checksum, info: Info, remaining: nat, before: seq<byte>, n: nat, s: seq<byte>): Decoded {
    if |s| < n then Unfinished
    else Prepend(s[..n], BlocksOf(xxh, info, Outstanding(info, remaining, n), before + s[..n], s[n..]))
  }

  /** A compressed block of `n` bytes and then the other blocks. */
  function CompressedOf(xxh: Checksum, info: Info, remaining: nat, before: seq<byte>, n: nat, s: seq<byte>): Decoded {
    if |s| < n then Unfinished
    else
      var data := DecodeWith(Reachable(info, before), s[..n], info.maxBlock);
      if data.None? then Broken(DecompressionFailed)
      else Prepend(data.value, BlocksOf(xxh, info, Outstanding(info, remaining, |data.value|),
                                        before + data.value, s[n..]))
  }

  /** A stored block may be taken in two parts. */
  lemma StoredSplit(xxh: Checksum, info: Info, remaining: nat, before: seq<byte>, n: nat, s: seq<byte>, k: nat)
    requires k <= n && k <= |s|
    ensures StoredOf(xxh, info, remaining, before, n, s) ==
            Prepend(s[..k], StoredOf(xxh, info, Outstanding(info, remaining, k), before + s[..k], n - k, s[k..]))
  {
    if n <= |s| {
      hide BlocksOf, Outstanding, Prepend;
      var t := s[k..];
      assert s[..n] == s[..k] + t[..n - k] && s[n..] == t[n - k..];
      OutstandingSplit(info, remaining, k, n - k);
      Appended(before, s[..k], t[..n - k]);
      PrependPrepend(s[..k], t[..n - k],
        BlocksOf(xxh, info, Outstanding(info, remaining, n), before + s[..n], s[n..]));
    }
  }

  lemma StoredWhole(xxh: Checksum, info: Info, remaining: nat, before: seq<byte>, n: nat, s: seq<byte>)
    requires n <= |s|
    ensures StoredOf(xxh, info, remaining, before, n, s) ==
            Prepend(s[..n], BlocksOf(xxh, info, Outstanding(info, remaining, n), before + s[..n], s[n..]))
  {
  }

  lemma OutstandingSplit(info: Info, remaining: nat, a: nat, b: nat)
    ensures Outstanding(info, Outstanding(info, remaining, a), b) == Outstanding(info, remaining, a + b)
  {
  }

  /** What a frame is, from the bytes at hand that decide its header. */
  lemma FrameFromHeader(xxh: Checksum, remaining: nat, s: seq<byte>, t: seq<byte>)
    requires |s| >= MIN_HEADER && s <= t
    ensures match DecodeHeader(xxh, s)
            case Refused(error) => FrameOf(xxh, remaining, t) == Broken(error)
            case Incomplete => true
            case SkippableFrame => FrameOf(xxh, remaining, t) == SkippableOf(t[4..])
            case FrameHeader(info, size) =>
              FrameOf(xxh, remaining, t) == BlocksOf(xxh, info, if info.sized then info.contentSize else remaining, [], t[size..])
  {
    hide DecodeHeader, BlocksOf;
    if !DecodeHeader(xxh, s).Incomplete? {
      HeaderStable(xxh, s, t);
    }
  }

  // ---------------------------------------------------------------------------------------------
  // More bytes
  // ---------------------------------------------------------------------------------------------

  /** A result with more bytes behind the frame. */
  function Extended(r: Decoded, more: seq<byte>): Decoded {
    match r
    case Content(out, left) => Content(out, left + more)
    case _ => r
  }

  lemma SuffixStays(xxh: Checksum, info: Info, remaining: nat, before: seq<byte>, s: seq<byte>, more: seq<byte>)
    requires SuffixOf(xxh, info, remaining, before, s) != Unfinished
    ensures SuffixOf(xxh, info, remaining, before, s + more) == Extended(SuffixOf(xxh, info, remaining, before, s), more)
  {
    if |s| >= 4 {
      assert (s + more)[..|s|] == s && (s + more)[4..] == s[4..] + more;
      ReadLEPrefix(s + more, |s|, 0, 4);
    }
    hide ReadLE;
  }

  lemma {:induction false} BlocksStay(xxh: Checksum, info: Info, remaining: nat, before: seq<byte>, s: seq<byte>, more: seq<byte>)
    requires BlocksOf(xxh, info, remaining, before, s) != Unfinished
    ensures BlocksOf(xxh, info, remaining, before, s + more) == Extended(BlocksOf(xxh, info, remaining, before, s), more)
    decreases |s|
  {
    hide ReadLE, SuffixOf, BlockContent, Outstanding;
    var t := s + more;
    assert t[..|s|] == s;
    ReadLEPrefix(t, |s|, 0, 4);
    var word := ReadLE(s, 0, 4);
    var size, body := word % 0x8000_0000, s[4..];
    assert t[4..] == body + more;
    if size == 0 {
      SuffixStays(xxh, info, remaining, before, body, more);
    } else if size <= info.maxBlock {
      assert (body + more)[..size] == body[..size] && (body + more)[size..] == body[size..] + more;
      var data := BlockContent(info, before, word, body[..size]);
      if data.Some? { BlocksStay(xxh, info, Outstanding(info, remaining, |data.value|), before + data.value, body[size..], more); }
    }
  }

  lemma SkippableStays(s: seq<byte>, more: seq<byte>)
    requires SkippableOf(s) != Unfinished
    ensures SkippableOf(s + more) == Extended(SkippableOf(s), more)
  {
    assert (s + more)[..|s|] == s && (s + more)[4..] == s[4..] + more;
    ReadLEPrefix(s + more, |s|, 0, 4);
    var n, body := ReadLE(s, 0, 4), s[4..];
    assert (body + more)[n..] == body[n..] + more;
    hide ReadLE;
  }

  /** Bytes that are a whole frame, or have an error, stay so whatever follows them. */
  lemma FrameStays(xxh: Checksum, remaining: nat, s: seq<byte>, more: seq<byte>)
    requires FrameOf(xxh, remaining, s) != Unfinished
    ensures FrameOf(xxh, remaining, s + more) == Extended(FrameOf(xxh, remaining, s), more)
  {
    hide DecodeHeader, BlocksOf, SkippableOf;
    var t := s + more;
    FrameFromHeader(xxh, remaining, s, t);
    match DecodeHeader(xxh, s) {
      case Refused(_) =>
      case SkippableFrame =>
        assert t[4..] == s[4..] + more;
        SkippableStays(s[4..], more);
      case FrameHeader(info, size) =>
        assert t[size..] == s[size..] + more;
        BlocksStay(xxh, info, if info.sized then info.contentSize else remaining, [], s[size..], more);
    }
  }

  /** What the blocks are, from the size in front of the first one. */
  lemma BlocksFromSize(xxh: Checksum, info: Info, remaining: nat, before: seq<byte>, word: nat, s: seq<byte>)
    requires |s| >= BLOCK_HEADER && ReadLE(s, 0, 4) == word
    ensures var size := word % 0x8000_0000;
            var body := s[BLOCK_HEADER..];
            BlocksOf(xxh, info, remaining, before, s) ==
            if size == 0 then SuffixOf(xxh, info, remaining, before, body)
            else if size > info.maxBlock then Broken(MaxBlockSizeInvalid)
            else if word >= 0x8000_0000 then StoredOf(xxh, info, remaining, before, size, body)
            else CompressedOf(xxh, info, remaining, before, size, body)
  {
    hide ReadLE, DecodeWith;
  }
}
