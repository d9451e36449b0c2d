/**
  Frames as the LZ4 frame format lays them out, byte for byte: the header that announces an Info, blocks behind their sizes, the
  end mark and the content checksum. What lz4frame.c makes of a frame is proved to be what was laid out.
 */
module Lz4FrameLayout {
  import opened Wrappers
  import opened Bytes
  import opened Lz4Dictionary
  import opened Lz4FrameFormat
  import opened Lz4FrameDecoder

  const TWO32 := 0x1_0000_0000
  const TWO64 := 0x1_0000_0000_0000_0000

  // ---------------------------------------------------------------------------------------------
  // Words
  // ---------------------------------------------------------------------------------------------

  /** Four bytes, the lowest first. */
  function Word4(n: nat): (r: seq<byte>)
    requires n < TWO32
    ensures |r| == 4
  {
    [n % 256, n / 256 % 256, n / 0x1_0000 % 256, n / 0x100_0000]
  }

  function Word8(n: nat): (r: seq<byte>)
    requires n < TWO64
    ensures |r| == 8
  {
    Word4(n % TWO32) + Word4(n / TWO32)
  }

  lemma Word4Value(s: seq<byte>, p: nat)
    requires p + 4 <= |s|
    ensures ReadLE(s, p, 4) == s[p] + 256 * s[p + 1] + 0x1_0000 * s[p + 2] + 0x100_0000 * s[p + 3] < TWO32
  {
    assert ReadLE(s, p + 4, 0) == 0;
    assert ReadLE(s, p + 3, 1) == s[p + 3];
    var a: int, b: int, c: int := s[p + 1], s[p + 2], s[p + 3];
    assert ReadLE(s, p + 2, 2) == b + 256 * c;
    assert ReadLE(s, p + 1, 3) == a + 256 * (b + 256 * c);
  }

  lemma Word4Digits(a: byte, b: byte, c: byte, d: byte)
    ensures var n := a + 256 * b + 0x1_0000 * c + 0x100_0000 * d; n < TWO32 && Word4(n) == [a, b, c, d]
  {
    var n := a + 256 * b + 0x1_0000 * c + 0x100_0000 * d;
    assert n / 256 == b + 256 * c + 0x1_0000 * d;
    assert n / 0x1_0000 == c + 256 * d;
    assert n / 0x100_0000 == d;
  }

  lemma Word4Sum(n: nat)
    requires n < TWO32
    ensures var w := Word4(n); n == w[0] as int + 256 * (w[1] as int) + 0x1_0000 * (w[2] as int) + 0x100_0000 * (w[3] as int)
  {
    assert n / 256 == n / 256 % 256 + 256 * (n / 0x1_0000);
    assert n / 0x1_0000 == n / 0x1_0000 % 256 + 256 * (n / 0x100_0000);
  }

  /** A word is read as the number that it was written for, and as no other. */
  lemma Word4Reads(s: seq<byte>, p: nat, n: nat)
    requires p + 4 <= |s| && n < TWO32
    ensures ReadLE(s, p, 4) == n <==> s[p..p + 4] == Word4(n)
  {
    hide ReadLE, Word4;
    Word4Value(s, p);
    Word4Digits(s[p], s[p + 1], s[p + 2], s[p + 3]);
    Word4Sum(n);
    assert s[p..p + 4] == [s[p], s[p + 1], s[p + 2], s[p + 3]];
  }

  lemma ReadLE8(s: seq<byte>, p: nat)
    requires p + 8 <= |s|
    ensures ReadLE(s, p, 8) == ReadLE(s, p, 4) + TWO32 * ReadLE(s, p + 4, 4)
  {
    Word4Value(s, p);
    assert ReadLE(s, p + 3, 5) == s[p + 3] + 256 * ReadLE(s, p + 4, 4);
    assert ReadLE(s, p + 2, 6) == s[p + 2] + 256 * ReadLE(s, p + 3, 5);
    assert ReadLE(s, p + 1, 7) == s[p + 1] + 256 * ReadLE(s, p + 2, 6);
  }

  lemma Word8Reads(s: seq<byte>, p: nat, n: nat)
    requires p + 8 <= |s| && n < TWO64
    ensures ReadLE(s, p, 8) == n <==> s[p..p + 8] == Word8(n)
  {
    hide ReadLE, Word4;
    ReadLE8(s, p);
    Word4Value(s, p);
    Word4Reads(s, p, n % TWO32);
    Word4Reads(s, p + 4, n / TWO32);
    assert s[p..p + 8] == s[p..p + 4] + s[p + 4..p + 8];
    assert s[p..p + 8] == Word8(n) <==> s[p..p + 4] == Word4(n % TWO32) && s[p + 4..p + 8] == Word4(n / TWO32) by {
      HalvesEqual(s[p..p + 4], s[p + 4..p + 8], Word4(n % TWO32), Word4(n / TWO32));
    }
  }

  lemma HalvesEqual(a: seq<byte>, b: seq<byte>, c: seq<byte>, d: seq<byte>)
    requires |a| == |c|
    ensures a + b == c + d <==> a == c && b == d
  {
    if a + b == c + d {
      assert a == (a + b)[..|a|] && c == (c + d)[..|a|];
      assert b == (a + b)[|a|..] && d == (c + d)[|a|..];
    }
  }

  // ---------------------------------------------------------------------------------------------
  // Headers
  // ---------------------------------------------------------------------------------------------

  /** 64 KB, 256 KB, 1 MB and 4 MB. */
  function BlockId(maxBlock: nat): (id: nat)
    ensures id <= 7
  {
    if maxBlock == 65536 then 4 else if maxBlock == 262144 then 5 else if maxBlock == 1048576 then 6 else if maxBlock == 4194304 then 7 else 0
  }

  /** What a header can say: one of four block sizes, and a content size only if there is a field for it. */
  predicate Announceable(info: Info) {
    BlockId(info.maxBlock) != 0 && info.contentSize < TWO64 && (!info.sized ==> info.contentSize == 0)
  }

  /** Version 01, block independence, no block checksum, content size, content checksum, two reserved bits. */
  function Flags(info: Info): (f: byte) {
    64 + (if info.linked then 0 else 32) + (if info.sized then 8 else 0) + (if info.checksum then 4 else 0)
  }

  /** The descriptor of a frame: what the header checksum covers. */
  function Descriptor(info: Info): (r: seq<byte>)
    requires Announceable(info)
    ensures |r| == if info.sized then 10 else 2
  {
    [Flags(info), 16 * BlockId(info.maxBlock)] + if info.sized then Word8(info.contentSize) else []
  }

  function HeaderBytes(xxh: Checksum, info: Info): (r: seq<byte>)
    requires Announceable(info)
    ensures |r| == if info.sized then 15 else 7
  {
    [0x04, 0x22, 0x4D, 0x18] + Descriptor(info) + [xxh(Descriptor(info)) / 256 % 256]
  }

  lemma MagicBytes(s: seq<byte>)
    requires |s| >= 4
    ensures ReadLE(s, 0, 4) == MAGIC <==> s[..4] == [0x04, 0x22, 0x4D, 0x18]
    ensures ReadLE(s, 0, 4) / 16 == MAGIC_SKIPPABLE <==> 0x50 <= s[0] < 0x60 && s[1..4] == [0x2A, 0x4D, 0x18]
  {
    hide ReadLE, Word4;
    assert s[0..4] == s[..4];
    Word4Reads(s, 0, 0x184D2204);
    Word4Is(0x04, 0x22, 0x4D, 0x18, 0x184D2204);
    Word4Value(s, 0);
    assert s[1..4] == [s[1], s[2], s[3]];
    Skipped(s[0], s[1], s[2], s[3]);
  }

  lemma Word4Is(a: byte, b: byte, c: byte, d: byte, n: nat)
    requires n == a + 256 * b + 0x1_0000 * c + 0x100_0000 * d
    ensures n < TWO32 && Word4(n) == [a, b, c, d]
  {
    Word4Digits(a, b, c, d);
  }

  lemma Skipped(a: byte, b: byte, c: byte, d: byte)
    ensures (a + 256 * b + 0x1_0000 * c + 0x100_0000 * d) / 16 == MAGIC_SKIPPABLE <==> 0x50 <= a < 0x60 && b == 0x2A && c == 0x4D && d == 0x18
  {
    var n := a + 256 * b + 0x1_0000 * c + 0x100_0000 * d;
    if n / 16 == MAGIC_SKIPPABLE {
      assert 0x184D2A50 <= n < 0x184D2A60;
      assert d == 0x18;
      assert c == 0x4D;
      assert b == 0x2A;
    }
  }

  /** The flag byte, bit by bit. */
  lemma FlagBits(f: byte, info: Info)
    ensures f == Flags(info) <==>
            f % 4 == 0 && f / 64 == 1 && f / 16 % 2 == 0 &&
            info.checksum == (f / 4 % 2 == 1) && info.sized == (f / 8 % 2 == 1) && info.linked == (f / 32 % 2 == 0)
  {
    BitsOfFlags(info);
    hide Flags;
    SameBits(f, Flags(info));
  }

  lemma BitsOfFlags(info: Info)
    ensures var f := Flags(info);
            && f % 4 == 0 && f / 64 == 1 && f / 16 % 2 == 0
            && info.checksum == (f / 4 % 2 == 1) && info.sized == (f / 8 % 2 == 1) && info.linked == (f / 32 % 2 == 0)
  {
  }

  lemma SameBits(f: byte, g: byte)
    ensures f == g <==> f % 4 == g % 4 && f / 4 % 2 == g / 4 % 2 && f / 8 % 2 == g / 8 % 2 && f / 16 % 2 == g / 16 % 2
                        && f / 32 % 2 == g / 32 % 2 && f / 64 == g / 64
  {
    Halved(f);
    Halved(g);
  }

  lemma Halved(f: byte)
    ensures f == 4 * (f / 4) + f % 4 && f / 4 == 2 * (f / 8) + f / 4 % 2 && f / 8 == 2 * (f / 16) + f / 8 % 2
    ensures f / 16 == 2 * (f / 32) + f / 16 % 2 && f / 32 == 2 * (f / 64) + f / 32 % 2
  {
  }

  /** The byte with the block size. */
  lemma SizeBits(b: byte, maxBlock: nat)
    ensures BlockId(maxBlock) != 0 && b == 16 * BlockId(maxBlock) <==>
            b / 128 == 0 && b / 16 % 8 >= 4 && b % 16 == 0 && maxBlock == BlockSize(b / 16 % 8)
  {
  }

  /** The descriptor in front of which the magic number stands. */
  ghost predicate HasDescriptor(s: seq<byte>, info: Info)
    requires |s| >= 7
  {
    && s[4] == Flags(info) && BlockId(info.maxBlock) != 0 && s[5] == 16 * BlockId(info.maxBlock)
    && (info.sized ==> |s| >= 15 && info.contentSize == ReadLE(s, 6, 8)) && (!info.sized ==> info.contentSize == 0)
  }

  lemma DescriptorBytes(s: seq<byte>, info: Info)
    requires |s| >= 7
    ensures HasDescriptor(s, info) <==>
            Announceable(info) && |s| >= 5 + |Descriptor(info)| && s[4..4 + |Descriptor(info)|] == Descriptor(info)
  {
    hide Flags, BlockId, Word8, ReadLE;
    assert s[4..6] == [s[4], s[5]];
    if info.sized && |s| >= 15 {
      assert s[4..14] == s[4..6] + s[6..14];
      ReadLEBound(s, 6, 8);
      assert Pow256(8) == TWO64;
      if info.contentSize < TWO64 {
        Word8Reads(s, 6, info.contentSize);
        if Announceable(info) {
          HalvesEqual(s[4..6], s[6..14], [Flags(info), 16 * BlockId(info.maxBlock)], Word8(info.contentSize));
        }
      }
    }
  }

  lemma DecodedDescriptor(xxh: Checksum, s: seq<byte>, info: Info, size: nat)
    requires |s| >= 7
    ensures DecodeHeader(xxh, s) == FrameHeader(info, size) <==>
            ReadLE(s, 0, 4) == MAGIC && HasDescriptor(s, info) && size == (if info.sized then 15 else 7)
            && xxh(s[4..size - 1]) / 256 % 256 == s[size - 1]
  {
    hide ReadLE, Flags, BlockId, BlockSize;
    FlagBits(s[4], info);
    SizeBits(s[5], info.maxBlock);
  }

  /** A header is read as an Info if and only if it is the one that announces it. */
  lemma HeaderExact(xxh: Checksum, s: seq<byte>, info: Info, size: nat)
    requires |s| >= 7
    ensures DecodeHeader(xxh, s) == FrameHeader(info, size) <==>
            Announceable(info) && size == |HeaderBytes(xxh, info)| && HeaderBytes(xxh, info) <= s
  {
    hide DecodeHeader, HasDescriptor, Descriptor, ReadLE, Announceable;
    DecodedDescriptor(xxh, s, info, size);
    DescriptorBytes(s, info);
    MagicBytes(s);
    if Announceable(info) && |s| >= |HeaderBytes(xxh, info)| {
      var n := |HeaderBytes(xxh, info)|;
      HeaderParts(s, n, Descriptor(info), xxh(Descriptor(info)) / 256 % 256);
    }
  }

  lemma HeaderParts(s: seq<byte>, n: nat, d: seq<byte>, c: byte)
    requires n == 5 + |d| <= |s|
    ensures [0x04, 0x22, 0x4D, 0x18] + d + [c] <= s <==> s[..4] == [0x04, 0x22, 0x4D, 0x18] && s[4..n - 1] == d && s[n - 1] == c
  {
    var m: seq<byte> := [0x04, 0x22, 0x4D, 0x18];
    var h := m + d + [c];
    assert s[..n] == s[..4] + s[4..n - 1] + [s[n - 1]];
    if h <= s {
      assert s[..4] == h[..4] == m;
      assert s[4..n - 1] == h[4..n - 1] == d;
      assert s[n - 1] == h[n - 1] == c;
    }
  }

  // ---------------------------------------------------------------------------------------------
  // Headers that are damaged
  // ---------------------------------------------------------------------------------------------

  /** A header with one of its bytes changed, and something behind it. */
  function Damaged(xxh: Checksum, info: Info, at: nat, b: byte, rest: seq<byte>): (r: seq<byte>)
    requires Announceable(info) && at < |HeaderBytes(xxh, info)|
    ensures |r| == |HeaderBytes(xxh, info)| + |rest| && r[at] == b
    ensures forall k | 0 <= k < |HeaderBytes(xxh, info)| && k != at :: r[k] == HeaderBytes(xxh, info)[k]
  {
    HeaderBytes(xxh, info)[at := b] + rest
  }

  lemma DamagedMagic(xxh: Checksum, info: Info, at: nat, b: byte, rest: seq<byte>)
    requires Announceable(info) && at < 4 && b != HeaderBytes(xxh, info)[at]
    ensures DecodeHeader(xxh, Damaged(xxh, info, at, b, rest)) == Refused(FrameTypeUnknown)
  {
    hide ReadLE, Descriptor;
    var s := Damaged(xxh, info, at, b, rest);
    MagicBytes(s);
    assert s[1..4] == [s[1], s[2], s[3]] && s[..4] == [s[0], s[1], s[2], s[3]];
  }

  /** The flag byte: version, reserved bits and block checksums. */
  lemma DamagedFlags(xxh: Checksum, info: Info, f: byte, rest: seq<byte>)
    requires Announceable(info)
    ensures var r := DecodeHeader(xxh, Damaged(xxh, info, 4, f, rest));
            && (f % 4 != 0 ==> r == Refused(ReservedFlagSet))
            && (f % 4 == 0 && f / 64 != 1 ==> r == Refused(HeaderVersionWrong))
            && (f == Flags(info) + 16 ==> r == Refused(BlockChecksumUnsupported))
  {
    hide ReadLE, HeaderChecksum, BlockSize, Word8;
    var s := Damaged(xxh, info, 4, f, rest);
    MagicBytes(s);
    assert s[..4] == [0x04, 0x22, 0x4D, 0x18];
  }

  /** The byte with the block size: reserved bits and sizes that are not supported. */
  lemma DamagedSize(xxh: Checksum, info: Info, b: byte, rest: seq<byte>)
    requires Announceable(info)
    ensures var r := DecodeHeader(xxh, Damaged(xxh, info, 5, b, rest));
            && (b >= 128 ==> r == Refused(ReservedFlagSet))
            && (b < 64 ==> r == Refused(MaxBlockSizeInvalid))
            && (64 <= b < 128 && b % 16 != 0 ==> r == Refused(ReservedFlagSet))
  {
    hide ReadLE, HeaderChecksum, BlockSize, Word8;
    var s := Damaged(xxh, info, 5, b, rest);
    MagicBytes(s);
    assert s[..4] == [0x04, 0x22, 0x4D, 0x18];
    FlagBits(s[4], info);
  }

  lemma DamagedChecksum(xxh: Checksum, info: Info, b: byte, rest: seq<byte>)
    requires Announceable(info) && b != HeaderBytes(xxh, info)[|HeaderBytes(xxh, info)| - 1]
    ensures DecodeHeader(xxh, Damaged(xxh, info, |HeaderBytes(xxh, info)| - 1, b, rest)) == Refused(HeaderChecksumInvalid)
  {
    hide ReadLE, BlockSize, Word8, Flags, BlockId;
    var n, d := |HeaderBytes(xxh, info)|, Descriptor(info);
    var s := Damaged(xxh, info, n - 1, b, rest);
    MagicBytes(s);
    assert s[..4] == [0x04, 0x22, 0x4D, 0x18];
    assert s[4..n - 1] == d;
    assert d[0] == s[4] && d[1] == s[5];
    FlagBits(s[4], info);
    SizeBits(s[5], info.maxBlock);
  }

  // ---------------------------------------------------------------------------------------------
  // Frames
  // ---------------------------------------------------------------------------------------------

  /** A block of a frame, stored as it is or compressed. */
  datatype Part = Part(stored: bool, bytes: seq<byte>)

  predicate Sizeable(p: Part) {
    0 < |p.bytes| < 0x8000_0000
  }

  ghost predicate AllSizeable(parts: seq<Part>) {
    forall p | p in parts :: Sizeable(p)
  }

  function PartBytes(p: Part): (r: seq<byte>)
    requires Sizeable(p)
  {
    Word4(|p.bytes| + if p.stored then 0x8000_0000 else 0) + p.bytes
  }

  function PartsBytes(parts: seq<Part>): (r: seq<byte>)
    requires AllSizeable(parts)
  {
    if parts == [] then [] else PartBytes(parts[0]) + PartsBytes(parts[1..])
  }

  /** What a block holds, behind the content before it. */
  function PartContent(info: Info, before: seq<byte>, p: Part): (r: Option<seq<byte>>) {
    if |p.bytes| > info.maxBlock then None
    else if p.stored then Some(p.bytes)
    else DecodeWith(if info.linked then before else [], p.bytes, info.maxBlock)
  }

  function PartsContent(info: Info, before: seq<byte>, parts: seq<Part>): (r: Option<seq<byte>>)
    decreases |parts|
  {
    if parts == [] then Some([])
    else
      var first := PartContent(info, before, parts[0]);
      if first.None? then None
      else
        var more := PartsContent(info, before + first.value, parts[1..]);
        if more.None? then None else Some(first.value + more.value)
  }

  /** What is wrong with a block that has no content. */
  function PartError(info: Info, p: Part): (e: Error) {
    if |p.bytes| > info.maxBlock then MaxBlockSizeInvalid else DecompressionFailed
  }

  /** What is wrong with the first block that has no content. */
  function PartsError(info: Info, before: seq<byte>, parts: seq<Part>): (e: Error)
    requires PartsContent(info, before, parts).None?
    decreases |parts|
  {
    var first := PartContent(info, before, parts[0]);
    if first.None? then PartError(info, parts[0]) else PartsError(info, before + first.value, parts[1..])
  }

  /** The end mark and the content checksum. The format's mark is 0; a size of 0 with the bit of stored blocks ends a frame too. */
  function EndBytes(info: Info, marked: bool, check: nat): (r: seq<byte>)
    requires check < TWO32
  {
    [0, 0, 0, if marked then 0x80 else 0] + if info.checksum then Word4(check) else []
  }

  function FrameBytes(xxh: Checksum, info: Info, parts: seq<Part>, marked: bool, check: nat): (r: seq<byte>)
    requires Announceable(info) && AllSizeable(parts) && check < TWO32
  {
    HeaderBytes(xxh, info) + (PartsBytes(parts) + EndBytes(info, marked, check))
  }

  /** The announced size, if it is not 0, is that of the content. */
  predicate SizeRight(info: Info, content: seq<byte>) {
    info.contentSize != 0 ==> |content| % TWO64 == info.contentSize
  }

  /** And the checksum, if there is one, is that of the content too. */
  predicate Confirmed(xxh: Checksum, info: Info, content: seq<byte>, check: nat) {
    SizeRight(info, content) && (info.checksum ==> check == xxh(content))
  }

  lemma EndDecides(xxh: Checksum, info: Info, remaining: nat, before: seq<byte>, marked: bool, check: nat, rest: seq<byte>)
    requires check < TWO32
    ensures BlocksOf(xxh, info, remaining, before, EndBytes(info, marked, check) + rest) ==
            if remaining != 0 then Broken(FrameSizeWrong)
            else if info.checksum && check != xxh(before) then Broken(ContentChecksumInvalid)
            else Content([], rest)
  {
    hide ReadLE, Word4, DecodeWith;
    var s := EndBytes(info, marked, check) + rest;
    Word4Value(s, 0);
    assert ReadLE(s, 0, 4) == if marked then 0x8000_0000 else 0;
    var t := s[4..];
    if info.checksum {
      assert t == Word4(check) + rest;
      assert t[0..4] == Word4(check) && t[4..] == rest;
      Word4Reads(t, 0, check);
    } else {
      assert t == rest;
    }
  }

  lemma PartDecides(xxh: Checksum, info: Info, remaining: nat, before: seq<byte>, p: Part, rest: seq<byte>)
    requires Sizeable(p)
    ensures BlocksOf(xxh, info, remaining, before, PartBytes(p) + rest) ==
            var data := PartContent(info, before, p);
            if data.None? then Broken(PartError(info, p))
            else Prepend(data.value, BlocksOf(xxh, info, Outstanding(info, remaining, |data.value|), before + data.value, rest))
  {
    hide ReadLE, Word4, DecodeWith, Prepend, Outstanding;
    var word := |p.bytes| + if p.stored then 0x8000_0000 else 0;
    var s := PartBytes(p) + rest;
    assert s[0..4] == Word4(word);
    Word4Reads(s, 0, word);
    var body := s[4..];
    assert body == p.bytes + rest;
    assert body[..|p.bytes|] == p.bytes && body[|p.bytes|..] == rest;
  }

  /** What the blocks of a frame decode to. */
  lemma {:induction false} PartsDecide(xxh: Checksum, info: Info, remaining: nat, before: seq<byte>, parts: seq<Part>, marked: bool, check: nat, rest: seq<byte>)
    requires AllSizeable(parts) && check < TWO32 && remaining < TWO64
    ensures BlocksOf(xxh, info, remaining, before, PartsBytes(parts) + EndBytes(info, marked, check) + rest) ==
            var c := PartsContent(info, before, parts);
            if c.None? then Broken(PartsError(info, before, parts))
            else if Outstanding(info, remaining, |c.value|) != 0 then Broken(FrameSizeWrong)
            else if info.checksum && check != xxh(before + c.value) then Broken(ContentChecksumInvalid)
            else Content(c.value, rest)
    decreases |parts|
  {
    hide BlocksOf, PartContent, PartBytes, EndBytes, Outstanding;
    var tail := EndBytes(info, marked, check) + rest;
    if parts == [] {
      assert PartsBytes(parts) + EndBytes(info, marked, check) + rest == tail;
      EndDecides(xxh, info, remaining, before, marked, check, rest);
      NothingOutstanding(info, remaining);
      assert before + [] == before;
    } else {
      var p, more := parts[0], parts[1..];
      assert Sizeable(p);
      var next := PartsBytes(more) + EndBytes(info, marked, check) + rest;
      assert PartsBytes(parts) + EndBytes(info, marked, check) + rest == PartBytes(p) + next;
      PartDecides(xxh, info, remaining, before, p, next);
      var data := PartContent(info, before, p);
      if data.Some? {
        OutstandingBound(info, remaining, |data.value|);
        PartsDecide(xxh, info, Outstanding(info, remaining, |data.value|), before + data.value, more, marked, check, rest);
        var c := PartsContent(info, before + data.value, more);
        if c.Some? {
          OutstandingSplit(info, remaining, |data.value|, |c.value|);
          assert before + data.value + c.value == before + (data.value + c.value);
        }
      }
    }
  }

  lemma OutstandingBound(info: Info, remaining: nat, n: nat)
    requires remaining < TWO64
    ensures Outstanding(info, remaining, n) < TWO64
  {
  }

  lemma NothingOutstanding(info: Info, remaining: nat)
    requires remaining < TWO64
    ensures Outstanding(info, remaining, 0) == remaining
  {
  }

  /**
    A frame that is laid out decodes to the content of its blocks, and what follows it is left over. It has no content if and
    only if a block has none, or the announced size or a flagged checksum is not that of the content, each with its own error.
   */
  lemma FrameDecides(xxh: Checksum, info: Info, parts: seq<Part>, marked: bool, check: nat, rest: seq<byte>)
    requires Announceable(info) && AllSizeable(parts) && check < TWO32
    ensures FrameOf(xxh, 0, FrameBytes(xxh, info, parts, marked, check) + rest) ==
            var c := PartsContent(info, [], parts);
            if c.None? then Broken(PartsError(info, [], parts))
            else if !SizeRight(info, c.value) then Broken(FrameSizeWrong)
            else if !Confirmed(xxh, info, c.value, check) then Broken(ContentChecksumInvalid)
            else Content(c.value, rest)
  {
    hide BlocksOf, DecodeHeader, HeaderBytes, PartsBytes, EndBytes, PartsContent, Announceable, AllSizeable;
    var h := HeaderBytes(xxh, info);
    var s := FrameBytes(xxh, info, parts, marked, check) + rest;
    var body := PartsBytes(parts) + EndBytes(info, marked, check) + rest;
    assert s == h + body;
    assert h <= s && s[|h|..] == body;
    HeaderExact(xxh, s, info, |h|);
    AnnouncedSize(info);
    PartsDecide(xxh, info, info.contentSize, [], parts, marked, check, rest);
    var c := PartsContent(info, [], parts);
    if c.Some? {
      assert [] + c.value == c.value;
      SizeConfirmed(info, |c.value|);
    }
  }

  lemma AnnouncedSize(info: Info)
    requires Announceable(info)
    ensures info.contentSize < TWO64 && (!info.sized ==> info.contentSize == 0)
  {
  }

  lemma SizeConfirmed(info: Info, n: nat)
    requires info.contentSize < TWO64
    ensures Outstanding(info, info.contentSize, n) == 0 <==> info.contentSize == 0 || n % TWO64 == info.contentSize
  {
  }

  /** The beginning of a frame that is laid out and confirmed is unfinished, wherever it is cut off. */
  lemma CutOffIsUnfinished(xxh: Checksum, info: Info, parts: seq<Part>, marked: bool, check: nat, n: nat)
    requires Announceable(info) && AllSizeable(parts) && check < TWO32
    requires PartsContent(info, [], parts).Some? && Confirmed(xxh, info, PartsContent(info, [], parts).value, check)
    requires n < |FrameBytes(xxh, info, parts, marked, check)|
    ensures FrameOf(xxh, 0, FrameBytes(xxh, info, parts, marked, check)[..n]) == Unfinished
  {
    hide FrameOf, PartsContent, SizeRight, Announceable, AllSizeable, FrameBytes;
    var s := FrameBytes(xxh, info, parts, marked, check);
    assert s + [] == s && s[..n] + s[n..] == s;
    FrameDecides(xxh, info, parts, marked, check, []);
    if FrameOf(xxh, 0, s[..n]) != Unfinished { FrameStays(xxh, 0, s[..n], s[n..]); }
  }

  // ---------------------------------------------------------------------------------------------
  // Skippable frames
  // ---------------------------------------------------------------------------------------------

  /** One of sixteen magic numbers, a size, and as many bytes of no interest. */
  function SkippableBytes(k: nat, data: seq<byte>): (r: seq<byte>)
    requires k < 16 && |data| < TWO32
  {
    [0x50 + k, 0x2A, 0x4D, 0x18] + Word4(|data|) + data
  }

  /** A skippable frame has no content and is passed over as a whole. */
  lemma SkippableDecides(xxh: Checksum, k: nat, data: seq<byte>, rest: seq<byte>)
    requires k < 16 && |data| < TWO32
    ensures FrameOf(xxh, 0, SkippableBytes(k, data) + rest) == Content([], rest)
  {
    hide ReadLE, Word4, BlocksOf;
    var s := SkippableBytes(k, data) + rest;
    MagicBytes(s);
    assert s[1..4] == [0x2A, 0x4D, 0x18];
    var t := s[4..];
    assert t == Word4(|data|) + (data + rest);
    assert t[0..4] == Word4(|data|) && t[4..] == data + rest;
    Word4Reads(t, 0, |data|);
    assert (data + rest)[|data|..] == rest;
  }

  // ---------------------------------------------------------------------------------------------
  // Nothing else is a frame
  // ---------------------------------------------------------------------------------------------

  /** Blocks that have content were laid out. */
  lemma {:induction false} BlocksLaidOut(xxh: Checksum, info: Info, remaining: nat, before: seq<byte>, s: seq<byte>) returns (parts: seq<Part>, marked: bool, check: nat)
    requires BlocksOf(xxh, info, remaining, before, s).Content?
    ensures AllSizeable(parts) && check < TWO32
    ensures s == PartsBytes(parts) + EndBytes(info, marked, check) + BlocksOf(xxh, info, remaining, before, s).left
    decreases |s|
  {
    hide ReadLE, Word4, BlocksOf, BlockContent, Outstanding, EndBytes, PartBytes;
    PrependSome(xxh, info, remaining, before, s);
    var word := ReadLE(s, 0, 4);
    var size, body := word % 0x8000_0000, s[4..];
    if size == 0 {
      parts := [];
      marked, check := EndLaidOut(xxh, info, remaining, before, s);
      assert PartsBytes([]) + EndBytes(info, marked, check) == EndBytes(info, marked, check);
    } else {
      FirstPart(xxh, info, remaining, before, s);
      var p := Part(word >= 0x8000_0000, body[..size]);
      var data := BlockContent(info, before, word, body[..size]).value;
      assert body == body[..size] + body[size..];
      PartLaidOut(s, word, body[..size], body[size..]);
      var more;
      more, marked, check := BlocksLaidOut(xxh, info, Outstanding(info, remaining, |data|), before + data, body[size..]);
      parts := [p] + more;
      assert parts[1..] == more;
      PartsJoin(s, PartBytes(p), body[size..], PartsBytes(more), EndBytes(info, marked, check), BlocksOf(xxh, info, remaining, before, s).left);
    }
  }

  /** The first block of blocks that have content. */
  lemma FirstPart(xxh: Checksum, info: Info, remaining: nat, before: seq<byte>, s: seq<byte>)
    requires BlocksOf(xxh, info, remaining, before, s).Content? && ReadLE(s, 0, 4) % 0x8000_0000 != 0
    ensures var word := ReadLE(s, 0, 4);
            var size, body := word % 0x8000_0000, s[4..];
            && size <= |body| && BlockContent(info, before, word, body[..size]).Some?
            && var data := BlockContent(info, before, word, body[..size]).value;
            BlocksOf(xxh, info, remaining, before, s) ==
            Prepend(data, BlocksOf(xxh, info, Outstanding(info, remaining, |data|), before + data, body[size..]))
  {
    hide ReadLE, BlockContent, Outstanding, Prepend;
    PrependSome(xxh, info, remaining, before, s);
  }

  lemma PrependSome(xxh: Checksum, info: Info, remaining: nat, before: seq<byte>, s: seq<byte>)
    requires BlocksOf(xxh, info, remaining, before, s).Content?
    ensures |s| >= 4
  {
  }

  /** A size word and as many bytes are laid out as a block. */
  lemma PartLaidOut(s: seq<byte>, word: nat, bytes: seq<byte>, rest: seq<byte>)
    requires |s| >= 4 && word == ReadLE(s, 0, 4) && 0 < |bytes| == word % 0x8000_0000 && s[4..] == bytes + rest
    ensures Sizeable(Part(word >= 0x8000_0000, bytes)) && s == PartBytes(Part(word >= 0x8000_0000, bytes)) + rest
  {
    hide ReadLE, Word4;
    Word4Value(s, 0);
    Word4Reads(s, 0, word);
    SizeWord(word);
    assert s == s[0..4] + s[4..];
  }

  lemma SizeWord(word: nat)
    requires word < TWO32
    ensures word == word % 0x8000_0000 + if word >= 0x8000_0000 then 0x8000_0000 else 0
  {
  }

  lemma PartsJoin(s: seq<byte>, first: seq<byte>, body: seq<byte>, more: seq<byte>, end: seq<byte>, rest: seq<byte>)
    requires s == first + body && body == more + end + rest
    ensures s == (first + more) + end + rest
  {
  }

  lemma EndLaidOut(xxh: Checksum, info: Info, remaining: nat, before: seq<byte>, s: seq<byte>) returns (marked: bool, check: nat)
    requires BlocksOf(xxh, info, remaining, before, s).Content? && ReadLE(s, 0, 4) % 0x8000_0000 == 0
    ensures check < TWO32 && s == EndBytes(info, marked, check) + BlocksOf(xxh, info, remaining, before, s).left
  {
    hide ReadLE, Word4, DecodeWith;
    var body, word := s[4..], ReadLE(s, 0, 4);
    Word4Value(s, 0);
    Word4Reads(s, 0, word);
    marked := word != 0;
    Word4Is(0, 0, 0, if marked then 0x80 else 0, word);
    check := 0;
    if info.checksum {
      Word4Value(body, 0);
      check := ReadLE(body, 0, 4);
      Word4Reads(body, 0, check);
      assert body == body[0..4] + body[4..];
    }
    assert s == s[0..4] + body;
  }

  /** Bytes that are neither a skippable frame nor a frame that is laid out and confirmed have no content. */
  lemma FrameLaidOut(xxh: Checksum, s: seq<byte>) returns (info: Info, parts: seq<Part>, marked: bool, check: nat)
    requires FrameOf(xxh, 0, s).Content? && !(0x50 <= s[0] < 0x60)
    ensures Announceable(info) && AllSizeable(parts) && check < TWO32
    ensures s == FrameBytes(xxh, info, parts, marked, check) + FrameOf(xxh, 0, s).left
    ensures PartsContent(info, [], parts) == Some(FrameOf(xxh, 0, s).out) && Confirmed(xxh, info, FrameOf(xxh, 0, s).out, check)
  {
    hide BlocksOf, HeaderBytes, PartsBytes, EndBytes, PartsContent, Announceable, AllSizeable, Confirmed, DecodeHeader, SkippableOf, ReadLE;
    DecidedHeader(xxh, s);
    var h := DecodeHeader(xxh, s);
    info := h.info;
    HeaderExact(xxh, s, info, h.size);
    var rest := s[h.size..];
    AnnouncedSize(info);
    parts, marked, check := BlocksLaidOut(xxh, info, info.contentSize, [], rest);
    var left := FrameOf(xxh, 0, s).left;
    assert s == HeaderBytes(xxh, info) + rest;
    FrameJoin(s, HeaderBytes(xxh, info), PartsBytes(parts), EndBytes(info, marked, check), left);
    FrameDecides(xxh, info, parts, marked, check, left);
  }

  lemma DecidedHeader(xxh: Checksum, s: seq<byte>)
    requires FrameOf(xxh, 0, s).Content? && !(0x50 <= s[0] < 0x60)
    ensures |s| >= 7 && DecodeHeader(xxh, s).FrameHeader?
  {
    MagicBytes(s);
    hide ReadLE, HeaderChecksum, BlockSize, BlocksOf, SkippableOf;
  }

  lemma FrameJoin(s: seq<byte>, header: seq<byte>, parts: seq<byte>, end: seq<byte>, rest: seq<byte>)
    requires s == header + (parts + end + rest)
    ensures s == (header + (parts + end)) + rest
  {
  }

  /** And a skippable frame is laid out as one. */
  lemma SkippableLaidOut(xxh: Checksum, s: seq<byte>) returns (k: nat, data: seq<byte>)
    requires FrameOf(xxh, 0, s).Content? && 0x50 <= s[0] < 0x60
    ensures k < 16 && |data| < TWO32 && s == SkippableBytes(k, data) + FrameOf(xxh, 0, s).left
  {
    MagicBytes(s);
    hide ReadLE, HeaderChecksum, BlockSize, BlocksOf, Word4;
    k := s[0] - 0x50;
    var t := s[4..];
    assert s[..4] == [s[0]] + s[1..4];
    var n := ReadLE(t, 0, 4);
    Word4Value(t, 0);
    Word4Reads(t, 0, n);
    var u := t[4..];
    data := u[..n];
    assert t == t[0..4] + u && u == data + u[n..];
    assert s == s[..4] + t;
  }

  /** A flagged checksum is looked at: this frame has the wrong one. */
  lemma WrongChecksum(xxh: Checksum)
    requires forall t :: xxh(t) == 0
    ensures FrameOf(xxh, 0, [0x04, 0x22, 0x4D, 0x18, 0x64, 0x40, 0x00, 0, 0, 0, 0, 1, 0, 0, 0]) == Broken(ContentChecksumInvalid)
  {
    var info := Info(true, false, 0, 65536, false);
    hide FrameOf, PartsContent;
    Word4Is(1, 0, 0, 0, 1);
    var s := FrameBytes(xxh, info, [], false, 1);
    assert Descriptor(info) == [0x64, 0x40];
    assert HeaderBytes(xxh, info) == [0x04, 0x22, 0x4D, 0x18, 0x64, 0x40, 0x00];
    assert PartsBytes([]) == [];
    assert EndBytes(info, false, 1) == [0, 0, 0, 0, 1, 0, 0, 0];
    assert s + [] == [0x04, 0x22, 0x4D, 0x18, 0x64, 0x40, 0x00, 0, 0, 0, 0, 1, 0, 0, 0];
    FrameDecides(xxh, info, [], false, 1, []);
  }

  /**
    The decoder gives the content of a frame that was laid out and confirmed, and consumes exactly the frame, whatever the calls, as
    long as those with input and room recur and a linked frame is shorter than 2^31 bytes.
   */
  method DecodeLaidOut(xxh: Checksum, info: Info, parts: seq<Part>, marked: bool, check: nat, rest: seq<byte>, call: nat -> Call, ghost next: nat -> nat)
    returns (consumed: nat, out: seq<byte>)
    requires Announceable(info) && AllSizeable(parts) && check < TWO32
    requires PartsContent(info, [], parts).Some? && Confirmed(xxh, info, PartsContent(info, [], parts).value, check)
    requires info.linked ==> |PartsContent(info, [], parts).value| < TWO31
    requires forall i: nat :: next(i) >= i && call(next(i)).input > 0 && call(next(i)).room > 0
    ensures out == PartsContent(info, [], parts).value && consumed == |FrameBytes(xxh, info, parts, marked, check)|
  {
    hide FrameOf, PartsContent, SizeRight, Announceable, AllSizeable, DecodeHeader, HeaderBytes, PartsBytes, EndBytes;
    var frame := FrameBytes(xxh, info, parts, marked, check) + rest;
    FrameDecides(xxh, info, parts, marked, check, rest);
    assert HeaderBytes(xxh, info) <= frame;
    HeaderExact(xxh, frame, info, |HeaderBytes(xxh, info)|);
    consumed, out := DecodeCompletely(xxh, frame, call, next);
  }
}
