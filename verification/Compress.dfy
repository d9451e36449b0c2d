/**
  compress.cpp: a 4-byte size header in front of an LZ4 block, and back. Sizes pass through 32-bit integers on the
  way, and are truncated here where the source truncates them.
 */
module Compress {
  import opened Wrappers
  import opened Bytes
  import opened Lz4Format
  import opened Lz4Memory
  import opened Lz4Encoder
  import Lz4Decoder

  const HEADER_SIZE := 4

  /** Conversion to a signed 32-bit integer. */
  function ToInt32(n: int): (r: int)
    ensures -0x8000_0000 <= r < 0x8000_0000 && (n - r) % 0x1_0000_0000 == 0
  {
    var u := n % 0x1_0000_0000;
    if u < 0x8000_0000 then u else u - 0x1_0000_0000
  }

  /** LZ4_compressBound: 0 when the size, taken as unsigned, is not supported. */
  function CompressBoundOf(isize: int): (r: int)
    requires -0x8000_0000 <= isize < 0x8000_0000
    ensures r > 0 <==> 0 <= isize <= MAX_INPUT_SIZE
    ensures 0 <= r && r + HEADER_SIZE < 0x8000_0000
  {
    if isize < 0 || isize > MAX_INPUT_SIZE then 0 else CompressBound(isize)
  }

  /** How many bytes of a value of `n` bytes the 32-bit size arguments keep: all of them for a supported size. */
  function Kept(n: nat): (r: nat)
    ensures r <= n && r <= MAX_INPUT_SIZE
    ensures r == n <==> n <= 2_113_929_216
  {
    var u := n % 0x1_0000_0000;
    if u <= MAX_INPUT_SIZE then u else 0
  }

  /** `result` is the header and some block for the bytes of `value` that are kept, or empty when compression fails. */
  ghost predicate IsCompressed(value: seq<byte>, result: seq<byte>) {
    if value == [] || |value| % 0x1_0000_0000 > MAX_INPUT_SIZE then result == []
    else
      exists block, sequences, last ::
        && IsBlockOf(value[..Kept(|value|)], block, sequences, last)
        && |block| <= Kept(|value|) + Kept(|value|) / 255 + 16
        && result == WriteLE(|value|, HEADER_SIZE) + block
  }

  /** LZ4_compress_default into a buffer of at least the bound: 16-bit positions below 64 KB and 32-bit ones above. */
  method CompressDefault(src: seq<byte>, dst: array<byte>, base: nat) returns (size: nat, ghost sequences: seq<Sequence>, ghost last: seq<byte>)
    requires |src| <= MAX_INPUT_SIZE && base + CompressBound(|src|) <= dst.Length
    modifies dst
    ensures 0 < size <= CompressBound(|src|) && IsBlockOf(src, dst[base..base + size], sequences, last)
    ensures SameOutside(dst, old(dst[..]), base, base + CompressBound(|src|))
    ensures sequences == [] && |src| >= 13 ==> Unmatched(src, if |src| < 65547 then ByU16 else ByU32)
  {
    hide IsBlockOf, SearchFails;
    var kind := if |src| < LIMIT_64K then ByU16 else ByU32;
    var table := new nat[TableSize(kind)](_ => 0);
    assert table[..] == EmptyTable(kind);
    size, sequences, last := CompressGeneric(src, table, kind, dst, base);
  }

  /** A search of the whole input with an empty table fails. */
  ghost predicate Unmatched(src: seq<byte>, kind: TableType) {
    exists n :: SearchFails(src, kind, EmptyTable(kind), 1, n)
  }

  ghost function EmptyTable(kind: TableType): (r: seq<nat>) {
    seq(TableSize(kind), _ => 0)
  }

  /** compress_uint32_block on an empty destination. */
  method CompressBlock(src: seq<byte>) returns (ok: bool, dst: seq<byte>)
    ensures IsCompressed(src, dst) && (ok <==> dst != [])
  {
    hide IsBlockOf, WriteLE;
    if |src| == 0 {
      return false, [];
    }
    var isize := ToInt32(|src|);
    var bound := CompressBoundOf(isize);
    if bound == 0 {
      return false, [];
    }
    bound := bound + HEADER_SIZE;
    var buffer := new byte[bound](_ => 0);
    ghost var sequences, last;
    var size;
    size, sequences, last := CompressDefault(src[..isize], buffer, HEADER_SIZE);
    ghost var block := buffer[HEADER_SIZE..HEADER_SIZE + size];
    Write32(buffer, 0, |src|);
    assert buffer[..HEADER_SIZE + size] == buffer[..HEADER_SIZE] + buffer[HEADER_SIZE..HEADER_SIZE + size];
    assert buffer[HEADER_SIZE..HEADER_SIZE + size] == block;
    dst := buffer[..HEADER_SIZE + size];
    assert IsBlockOf(src[..Kept(|src|)], block, sequences, last);
    ok := true;
  }

  /** What a compressed value decompresses to, or None when that fails. */
  function Decompressed(value: seq<byte>): (r: Option<seq<byte>>) {
    if |value| <= HEADER_SIZE then None
    else
      var inputSize := ToInt32(|value| - HEADER_SIZE);
      if inputSize < 0 then None
      else DecodeBlock(value[HEADER_SIZE..HEADER_SIZE + inputSize], ToInt32(ReadLE(value, 0, HEADER_SIZE)))
  }

  /** decompress_uint32_block on an empty destination. On failure the destination keeps the announced size, if that is allowed. */
  method DecompressBlock(src: seq<byte>, maxSize: nat) returns (ok: bool, dst: seq<byte>)
    ensures ok <==> Decompressed(src).Some? && |src| > HEADER_SIZE && ReadLE(src, 0, HEADER_SIZE) <= maxSize
    ensures ok ==> Decompressed(src) == Some(dst)
    ensures !ok ==> |dst| == if |src| <= HEADER_SIZE || ReadLE(src, 0, HEADER_SIZE) > maxSize then 0 else ReadLE(src, 0, HEADER_SIZE)
  {
    if |src| <= HEADER_SIZE {
      return false, [];
    }
    var origSize := ReadLE(src, 0, HEADER_SIZE);
    if origSize > maxSize {
      return false, [];
    }
    var buffer := new byte[origSize](_ => 0);
    var inputSize, outputSize := ToInt32(|src| - HEADER_SIZE), ToInt32(origSize);
    // A std::string keeps a readable terminator behind its last byte.
    var input := src[HEADER_SIZE..] + [0];
    var size, _ := Lz4Decoder.Decompress(input, buffer, inputSize, outputSize);
    assert inputSize >= 0 ==> input[..inputSize] == src[HEADER_SIZE..HEADER_SIZE + inputSize];
    if size < 0 {
      return false, buffer[..];
    }
    dst := buffer[..size];
    ok := true;
  }

  /** Decompressing a compressed value recovers the bytes that were kept of it; only a failed compression does not decompress. */
  lemma CompressedDecompresses(value: seq<byte>, c: seq<byte>)
    requires IsCompressed(value, c)
    ensures Decompressed(c) == if c == [] then None else Some(value[..Kept(|value|)])
    ensures c == [] ==> Kept(|value|) == 0
  {
    if c != [] {
      var kept := value[..Kept(|value|)];
      var block, sequences, last :| IsBlockOf(kept, block, sequences, last) && |block| <= CompressBound(|kept|)
        && c == WriteLE(|value|, HEADER_SIZE) + block;
      CompressedBlockDecompresses(value, block, sequences, last);
    }
  }

  lemma CompressedBlockDecompresses(value: seq<byte>, block: seq<byte>, sequences: seq<Sequence>, last: seq<byte>)
    requires |value| % 0x1_0000_0000 <= MAX_INPUT_SIZE
    requires IsBlockOf(value[..Kept(|value|)], block, sequences, last) && |block| <= CompressBound(Kept(|value|))
    ensures Decompressed(WriteLE(|value|, HEADER_SIZE) + block) == Some(value[..Kept(|value|)])
  {
    hide DecodeBlock, WriteLE, ReadLE, IsBlockOf;
    var kept := value[..Kept(|value|)];
    var c := WriteLE(|value|, HEADER_SIZE) + block;
    BlockDecodes(kept, block, sequences, last);
    assert c[HEADER_SIZE..] == block && c[..HEADER_SIZE] == WriteLE(|value|, HEADER_SIZE);
    HeaderReads(|value|, c);
    assert ToInt32(|c| - HEADER_SIZE) == |block|;
    assert c[HEADER_SIZE..HEADER_SIZE + |block|] == block;
  }

  /** The encoder's output decodes, into a buffer of the size of the input, to the input. */
  lemma BlockDecodes(src: seq<byte>, block: seq<byte>, sequences: seq<Sequence>, last: seq<byte>)
    requires IsBlockOf(src, block, sequences, last)
    ensures DecodeBlock(block, |src|) == Some(src) && |block| > 0
  {
    hide DecodeBlock, WellFormed;
    WellFormedDecodes(sequences, last, |src|, |src|);
    BlockNotEmpty(sequences, last);
  }

  lemma BlockNotEmpty(sequences: seq<Sequence>, last: seq<byte>)
    requires AllRepresentable(sequences)
    ensures |EncodeBlock(sequences, last, 0)| > 0
  {
  }

  /** A header of 4 bytes keeps a size modulo 2^32. */
  lemma HeaderReads(n: nat, c: seq<byte>)
    requires |c| >= HEADER_SIZE && c[..HEADER_SIZE] == WriteLE(n, HEADER_SIZE)
    ensures ReadLE(c, 0, HEADER_SIZE) == n % 0x1_0000_0000
  {
    var r, k := n % 0x1_0000_0000, n / 0x1_0000_0000;
    Times256Four(k);
    WriteTruncates(r, k, 4);
    assert c[0..4] == c[..4];
    assert Pow256(4) == 0x1_0000_0000;
    ReadWriteLE(r, 4, c, 0);
  }

  /** `k` moved `n` bytes up. */
  function Times256(k: nat, n: nat): (r: nat) {
    if n == 0 then k else 256 * Times256(k, n - 1)
  }

  lemma Times256Four(k: nat)
    ensures Times256(k, 4) == 0x1_0000_0000 * k
  {
    assert Times256(k, 1) == 256 * k;
    assert Times256(k, 2) == 256 * Times256(k, 1);
    assert Times256(k, 3) == 256 * Times256(k, 2);
  }

  lemma {:induction false} WriteTruncates(w: nat, k: nat, n: nat)
    ensures WriteLE(w + Times256(k, n), n) == WriteLE(w, n)
    decreases n
  {
    if n > 0 {
      var t := Times256(k, n - 1);
      assert (w + 256 * t) % 256 == w % 256 && (w + 256 * t) / 256 == w / 256 + t;
      WriteTruncates(w / 256, k, n - 1);
    }
  }

  /** The round trip through the cache: a value comes back unchanged if and only if its size is supported. */
  method RoundTrip(value: seq<byte>) returns (ok: bool, compressed: seq<byte>, result: seq<byte>)
    ensures IsCompressed(value, compressed)
    ensures result == value[..Kept(|value|)]
    ensures result == value <==> |value| <= 2_113_929_216
    ensures 0 < |value| <= 2_113_929_216 ==> ok
  {
    ok, compressed := CompressBlock(value);
    CompressedDecompresses(value, compressed);
    if |compressed| > HEADER_SIZE { ReadLEBound(compressed, 0, HEADER_SIZE); }
    var ok', r := DecompressBlock(compressed, 0xFFFF_FFFF);
    result := r;
  }
}
