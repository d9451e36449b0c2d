# Verified model of the metahash full node client

A Dafny model of the hard core of the client: the LZ4 block codec and the cache's wrapper around it, the LZ4 frame
decoder, the JSON reader, writer, document and pointer, the pool allocator behind them, and the node's own protocols.
`dafny verify dfyconfig.toml` checks all of it.

## What is modelled

**LZ4 blocks.** `Lz4Format` gives blocks a meaning: a list of sequences (literals, offset, match length) is run one byte
at a time. It also gives their layout in bytes and a plain decoder, and proves that the plain decoder accepts a block
exactly when the block lays out sequences that leave the room the format asks for. `Lz4Acceptance` says the same with the layout
and the margins written out in numbers, for every layout and every size of output. `Lz4Encoder` is the encoder with its
hash table, backward extension, chained matches and over-writing copies. It emits a layout of sequences that mean the
input, obey the end of block conditions and stay below the size bound, overshoot included; where its search finds nothing, every try
it made was of no use. `Lz4Decoder` is the fast decoder with
its 8-byte copies and correction tables, with or without a dictionary. For every input it does what the plain decoder does and
writes nothing outside the output. `Lz4Count` is the word-at-a-time match length. `Compress` puts the size header in front and proves the
round trip of the cache, with sizes truncated to 32 bits where the source truncates them: a value comes back unchanged if
and only if it is no longer than 0x7E000000 bytes.

**LZ4 frames.** `Lz4FrameFormat` says what a frame decodes to, block by block, each linked block behind all the content before
it, or which error it has, and `Lz4FrameLayout` how a frame is laid out in bytes: a frame has content if and only if it is laid out so and its announced size
and checksum are right. `Lz4Dictionary` proves that the last 64 KB of that content are enough. `Lz4FrameDecoder` is the resumable stage machine, with
the dictionary that it keeps in the caller's buffer or in its own and moves between them. However the input and the room for
output are cut up, wherever the output goes and whether it stays there or not, it produces the same content, consumes exactly
the frame, and ends. What it asks for next stays within the frame, but for tiny skippable ones. Checksums are a parameter, the same for the reference and the machine.

**JSON.** `JsonGrammar` is the recursive descent parser as a function and `JsonAutomaton` the table-driven one. They give
the same events, the same counts, the same error codes and the same offsets on every text, except when the first character
is one of `]`, `}`, `,` and `:`, where the codes differ. `JsonReader` is the parser object whose methods do this in loops and
calls, with the overflow limits of integer parsing. `JsonSpelling`, `JsonNumeral` and `JsonText` are the grammar of RFC 8259 apart
from any parser: strings with every way to spell a character, numerals, and trees that keep all white space. Reading accepts exactly
these texts and gives the events of their trees; `JsonFaults` says what stands at the offset of every error. `JsonDom` holds values and the handler that builds them,
`JsonPrint` the text of a value with the proof that reading it gives the value back, `JsonBuffer` the room that is reserved for
that text event by event, `JsonWriter` the writer object, and `JsonDocument` the whole way there and back. `JsonPointer` reads and writes RFC 6901 pointers, and
`JsonPointerText` is the RFC's own definition of their text, which the string form meets exactly, with the index of a token. `Utf8` is RFC 3629.
`PoolAllocator` is the bump allocator with 64-bit wrap-around.

**Protocols.** `RpcRequest`, `SocketPool` and `BatchRequest` are the retrying request, the connection pool and the batch
collector. The first two are state machines whose guarantees hold over every run; the third is driven through every order
of completion, and `RequestId` is how it reads the ids of requests. `HistoryCache` is the paging cache, whose records and lists are
stored as JSON text, `HistoryList` what its lists become as transaction ids arrive, `HistoryRecords` which records survive whole
runs, and `HistoryEndless` the one length of a history for which its loop need not end.

Each object of the source that changes its fields is a class here. Its methods are tied to functions of the state before, and what
is promised is proved about those functions.

## Where code and documentation disagree

The model follows the code.

- An LZ4 match with offset 0 is accepted and yields zeros; the LZ4 block format calls it invalid. `OffsetZeroAccepted` is such a block.
- `lz4.h` says that LZ4_decompress_safe never reads outside the input. It reads the token of an empty input, and one byte behind
  an input of a single byte of 0xF0 or more. `ReadsStayInside` says for which inputs it keeps the promise, `EmptyInputIsRead` and
  `OneByteIsReadPast` give the two failures. The frame decoder hands it blocks from the caller's buffer, so a block of that one byte at
  the end of the buffer is read past too (`DecodeWhole`).
- The low nibble of the last token of a block is ignored. With no room for output only the block `[0]` is accepted.
- The end of a frame is a block size of 0 (LZ4 frame format, "EndMark"). The size 0 with the bit of a stored block ends it as well
  (the `marked` frames of `Lz4FrameLayout`).
- `lz4frame.h` offers the result of LZ4F_decompress as the number of bytes to give next. It reaches behind the frame while the header
  of a skippable frame of less than three bytes is read, and never otherwise (`HintWithinFrame`).
- A linked frame whose dictionary reaches 2^31 bytes, because that much was put into one buffer or into stable ones that join, makes
  the frame decoder pass a length that does not fit an int. The model marks this as `DictionaryTooLong`; `DecodeInPieces` says that
  only linked frames of 2^31 bytes or more come to it.
- The second half of a surrogate pair is accepted alone, as bytes that are no UTF-8 (`LoneHalfAccepted`); bytes in a string are not
  checked at all. A NUL ends a JSON text, whatever follows it (`IsDocument`). The counts of members and elements wrap around at 2^32.
- Section 6 of RFC 6901 decodes the triplets of a fragment before it is taken apart. The code takes %2F for a character of a name:
  `#/a%2Fb` has one token (`EncodedSlashIsNoSeparator`). `FragmentIsDecoded` says that nothing else differs for a fragment that is read.
  Characters that RFC 3986 allows in fragments, such as `!`, are refused when they are not encoded (`PointerFault`).
- The index of a token of digits is computed in 32 bits, and an overflow is noticed only when the number becomes smaller: the token
  10000000000 gets the index 1410065408 (`WrongIndex`). `IndexExact` says for which tokens the index is right.
- `RpcRequest`: `error_handler` unlocks its mutex by hand while a lock guard still holds it. The model takes the code to run as if
  the lock were released once, there.
- `BatchRequest`: a batch of notifications only is answered with an empty array. Section 6 of the JSON-RPC 2.0 specification
  says that nothing is returned. `NothingToAnswer` says for which batches this happens, `AnswerNotification` is one.
- `BatchRequest`: a batch is never answered if it has a request for a method without handler whose id is a text that is no int,
  because std::stoi throws in the middle of the batch. `Collect` says that a batch is answered, exactly once, if and only if it
  has no such request; `NeverAnswered` is one that has.
- A listed id counts as found when it is a prefix of the new one, so that a longer id is dropped (`LongerIdDropped`). `WholeHistory`
  says exactly when this keeps the list from becoming the history; for ids of one length it never does (`OneLengthIsClear`).
- The paging loop ends for every history of fewer than 2^32 - 1 transactions (`Refresh`). For 2^32 - 1 of which one is dropped it never
  does, because its 32-bit position stays even (`Endless`); `NeverEnds` is such a history.
- Records and lists share one database, and a record is stored under the text before the first NUL of its id. A listed id has its own
  record if and only if nothing else was written later under that key (`ListedOwnRecord`): a list saved for an address of that name
  (`AddressOverwrites`), or another id with the same key, which can only be listed for another address (`OtherOverwrites`).
- `PoolAllocator`: a request within eight bytes of 2^64 is rounded to zero (`MallocLargest`). `Malloc` and `Realloc` state for which
  sizes the block fits its memory, in both directions.
- The JSON writer reserves room for a string in 32 bits and then puts characters without looking. From 715827883 characters on the
  reservation wraps around (`ReservationWraps`); `ReservationExact` says for which lengths it is enough, and `LongStringFits` is a
  longer string that fits all the same. What is written is what a fresh writer can hold at each moment (`Storable`), which includes
  every value without so long a string (`WritableStorable`). The reader counts the characters of a string in 32 bits too
  (`PoppedIsPut`), and reading stops with the mark `LengthWraps` where that count wraps around.

## Model

| member | source | states |
|---|---|---|
| `Lz4Format.CopyMatchPeriodic` | 3rdParty/lz4/lz4.c:1208-1235 | in an overlapping copy every new byte equals the one an offset back in the final output |
| `Lz4Format.CopyMatchUnique` | 3rdParty/lz4/lz4.c:1208-1235 | that recurrence determines the copy, so any way of copying that meets it is right |
| `Lz4Format.LengthRoundTrip` | 3rdParty/lz4/lz4.c:1132-1142 | a length field is read as n if and only if it is the one form in which n is written |
| `Lz4Format.RunReads` | 3rdParty/lz4/lz4.c:550-567 | literals that are laid out in a block are read from it |
| `Lz4Format.RunCanonical` | 3rdParty/lz4/lz4.c:1132-1162 | whatever is read as literals is laid out as those literals |
| `Lz4Format.MatchReads` | 3rdParty/lz4/lz4.c:569-605 | an offset and match length that are laid out in a block are read from it |
| `Lz4Format.MatchCanonical` | 3rdParty/lz4/lz4.c:1164-1181 | whatever is read as a match is laid out as that match |
| `Lz4Format.DecodeComplete` | 3rdParty/lz4/lz4.c:1128-1247 | every block of sequences that leaves the required room decodes to what the sequences mean |
| `Lz4Format.DecodeSound` | 3rdParty/lz4/lz4.c:1128-1247 | every accepted block lays out sequences that leave the required room and mean the output |
| `Lz4Format.DecodeBlockExact` | 3rdParty/lz4/lz4.c:1088-1247 | a block decodes to an output if and only if it encodes sequences that fit and mean that output |
| `Lz4Format.OffsetZeroAccepted` | 3rdParty/lz4/lz4.c:1164-1168 | a block with a match of offset 0 is accepted and yields zeros |
| `Lz4Format.WellFormedSnoc` | 3rdParty/lz4/lz4.c:262-280 | another sequence that starts 12 bytes and ends 5 bytes before the end keeps the end of block conditions |
| `Lz4Format.WellFormedDecodes` | 3rdParty/lz4/lz4.c:262-280 | a block that meets the end of block conditions always decodes to its meaning, given room for it |
| `Lz4Acceptance.LayoutDecides` | 3rdParty/lz4/lz4.c:1088-1247 | for every layout and every capacity, written out in numbers: it decodes to its meaning if its literals and matches keep the margins of 12, 5, 8 and 5 bytes, and is refused otherwise |
| `Lz4Acceptance.AcceptedIsLayout` | 3rdParty/lz4/lz4.c:1088-1247 | whatever is accepted is such a layout and keeps those margins |
| `Lz4Acceptance.FourIsTooFew` | 3rdParty/lz4/lz4.c:1224-1226 | a match that ends four bytes before the end of the output is refused, whatever else is in the block |
| `Lz4Acceptance.TwentyEqual` | 3rdParty/lz4/lz4.c:262-280 | the block of twenty equal bytes decodes into 20 bytes of room and not into 19 |
| `Lz4Memory.WildCopyIn` | 3rdParty/lz4/lz4.c:249-256 | a copy in steps of 8, at least one, puts the bytes in place and writes no further than its last step |
| `Lz4Memory.WildCopyWithin` | 3rdParty/lz4/lz4.c:249-256 | the same within one buffer, where source and destination are at least 8 apart: the bytes repeat at that distance |
| `Lz4Count.NbCommonBytesIsPrefix` | 3rdParty/lz4/lz4.c:291-347 | trailing zero bits of the exclusive or of two words, divided by 8, count their common bytes |
| `Lz4Count.SameWord` | 3rdParty/lz4/lz4.c:355-356 | words are equal if and only if the bytes are |
| `Lz4Count.Count` | 3rdParty/lz4/lz4.c:350-365 | the result is the longest common prefix within the limit, overlapping buffers included |
| `Lz4Count.CountTail` | 3rdParty/lz4/lz4.c:361-364 | the 4, 2 and 1 byte steps find the exact end of the match in the last 7 bytes |
| `Lz4Encoder.HashPosition` | 3rdParty/lz4/lz4.c:401-424 | the hash is an index of the table for its type |
| `Lz4Encoder.HashFactors` | 3rdParty/lz4/lz4.c:401-418 | the hashes of powers of two that show every bit of the two factors |
| `Lz4Encoder.PositionLossless` | 3rdParty/lz4/lz4.c:372-447 | every position that is hashed is stored without loss, in 16 bits too, and every distance then fits 16 bits |
| `Lz4Encoder.PutPosition` | 3rdParty/lz4/lz4.c:426-440 | the position is read back unchanged from its slot, no other slot changes, and the table keeps holding positions of earlier input only |
| `Lz4Encoder.FindMatch` | 3rdParty/lz4/lz4.c:518-545 | a match that is found repeats 4 bytes at a distance of at most 65535, although the 16-bit search does not test the distance; before it, and everywhere if none is found, every position on the way, whose steps grow by one every 64, had in its slot a position too far back or with other bytes, and the search goes on until 12 bytes before the end |
| `Lz4Encoder.Try` | 3rdParty/lz4/lz4.c:536-544 | one position is a match exactly when the slot of its hash holds one near enough with the same 4 bytes, and takes that slot |
| `Lz4Encoder.FirstTry` | 3rdParty/lz4/lz4.c:509-545 | a search of 14 bytes or more fails only if its first four bytes differ from the four that begin one further |
| `Lz4Encoder.CatchUp` | 3rdParty/lz4/lz4.c:547-548 | the match is extended backwards as far as possible and still repeats at the same distance |
| `Lz4Encoder.TestNextPosition` | 3rdParty/lz4/lz4.c:609-632 | a match is found right behind another if and only if the slot holds a position at most 65535 back with the same 4 bytes, after the position two back was put |
| `Lz4Encoder.EmitLiterals` | 3rdParty/lz4/lz4.c:550-567 | the bytes written are the layout of the literals, and nothing beyond 8 more is touched |
| `Lz4Encoder.EmitMatch` | 3rdParty/lz4/lz4.c:569-605 | token, literals, offset and length together are the layout of the sequence, the 4-byte stores included |
| `Lz4Encoder.EmitLastLiterals` | 3rdParty/lz4/lz4.c:635-651 | the closing run is laid out exactly |
| `Lz4Encoder.MatchMeansInput` | 3rdParty/lz4/lz4.c:569-605 | copying the match at that distance gives the input it covers |
| `Lz4Encoder.SequenceGrowth` | 3rdParty/lz4/lz4.h:152-153 | one sequence keeps what is written within the bound for the input it covers |
| `Lz4Encoder.EmittedSnoc` | 3rdParty/lz4/lz4.c:509-654 | the invariant across search, catch-up, chained matches and the exit: what is written lays out well-formed sequences that mean the input so far |
| `Lz4Encoder.EmitOneMatch` | 3rdParty/lz4/lz4.c:569-605 | the invariant holds after a match, and writes stay within the bound |
| `Lz4Encoder.EmitMatches` | 3rdParty/lz4/lz4.c:569-632 | the invariant holds after a chain of matches |
| `Lz4Encoder.EmitSequences` | 3rdParty/lz4/lz4.c:509-632 | the invariant holds at the last literals, and there is no sequence only if the first search failed |
| `Lz4Encoder.CompressGeneric` | 3rdParty/lz4/lz4.c:458-655 | the block encodes well-formed sequences that mean the input, is no longer than the bound, and nothing outside the bound is written; it fails exactly on unsupported sizes, and 13 bytes or more become literals only after a failed search |
| `Lz4Decoder.DistanceLinks` | 3rdParty/lz4/lz4.c:1114-1235 | the correction tables move the source by a multiple of the offset that is at least 8, or keep it |
| `Lz4Decoder.FirstEight` | 3rdParty/lz4/lz4.c:1210-1221 | the first 8 bytes of a match repeat at the offset, for offsets 0 to 7 as well |
| `Lz4Decoder.CopyTail` | 3rdParty/lz4/lz4.c:1222-1234 | the copy near the end of the output repeats at the distance and stays inside the output |
| `Lz4Decoder.CopyMatchInto` | 3rdParty/lz4/lz4.c:1208-1235 | the 8-byte copies leave exactly what a byte-by-byte overlapping copy leaves |
| `Lz4Decoder.ReadLiteralLength` | 3rdParty/lz4/lz4.c:1132-1142 | the length and the position agree with the plain decoder, or both fail |
| `Lz4Decoder.ReadMatchLength` | 3rdParty/lz4/lz4.c:1170-1181 | the same for match lengths |
| `Lz4Decoder.DecodeLiterals` | 3rdParty/lz4/lz4.c:1144-1162 | a run of literals leaves what the plain decoder would have left, or is the end, or fails with it |
| `Lz4Decoder.DecodeMatch` | 3rdParty/lz4/lz4.c:1164-1235 | a match leaves what the plain decoder would have left, behind any dictionary, or fails with it |
| `Lz4Decoder.CopyFromDict` | 3rdParty/lz4/lz4.c:1183-1206 | a match that begins in a dictionary elsewhere leaves exactly what a byte-by-byte copy over dictionary and block leaves |
| `Lz4Decoder.CopyBehind` | 3rdParty/lz4/lz4.c:1208-1235 | a match within the block does not depend on what lies in front of it |
| `Lz4Decoder.DecompressGeneric` | 3rdParty/lz4/lz4.c:1088-1253 | behind a history in front of the output or elsewhere the result is that of the plain decoder behind that history |
| `Lz4Decoder.DecompressUsingDict` | 3rdParty/lz4/lz4.c:1369-1383 | wherever the dictionary lies, the result is that of the plain decoder behind it |
| `Lz4Decoder.Decompress` | 3rdParty/lz4/lz4.c:1088-1253 | for every input the result is that of the plain decoder, nothing outside the output is written, and nothing behind the input is read but what is read before its end is looked at |
| `Lz4Decoder.ReadsStayInside` | 3rdParty/lz4/lz4.c:1122-1142 | nothing behind an input of exactly its length is read if and only if there is no room for output, it has two bytes, or it has one below 0xF0 |
| `Lz4Decoder.EmptyInputIsRead` | 3rdParty/lz4/lz4.c:1132-1133 | a byte is read of an empty input |
| `Lz4Decoder.OneByteIsReadPast` | 3rdParty/lz4/lz4.c:1132-1137 | a second byte is read of the input [0xF0] |
| `Compress.CompressBoundOf` | 3rdParty/lz4/lz4.h:152-153 | the bound is positive exactly for supported sizes, and with the header it fits a signed 32-bit integer |
| `Compress.CompressDefault` | 3rdParty/lz4/lz4.c:658-699 | whichever table is used, below 65547 bytes the one of 16 bits, the block means the input and stays within the bound |
| `Compress.CompressBlock` | src/cache/compress.cpp:34-63 | a header and a block for the bytes that are kept, or nothing for an empty or unsupported value |
| `Compress.DecompressBlock` | src/cache/compress.cpp:80-104 | succeeds exactly when the announced size is allowed and the block decodes, with its content |
| `Compress.CompressedDecompresses` | src/cache/compress.cpp:34-104 | whatever block was chosen, decompressing gives the bytes that were kept |
| `Compress.RoundTrip` | src/cache/compress.cpp:106-116 | a value comes back unchanged if and only if its size is supported, and a non-empty supported one never fails |
| `Lz4Dictionary.DecodeWithNothing` | 3rdParty/lz4/lz4frame.c:970-979 | without history a block decodes as a block of its own |
| `Lz4Dictionary.AgreeCopy` | 3rdParty/lz4/lz4.c:1164-1235 | a match appends the same to histories with the same last 64 KB |
| `Lz4Dictionary.WindowIsEnough` | 3rdParty/lz4/lz4.c:1119-1168 | a block decodes alike, or is rejected alike, behind histories with the same last 64 KB |
| `Lz4Dictionary.CutHolds` | 3rdParty/lz4/lz4frame.c:1289-1293 | a dictionary cut to its last 64 KB is still good |
| `Lz4Dictionary.FilledFlushing` | 3rdParty/lz4/lz4frame.c:1005-1016 | what is put in front of a block that is being flushed makes it a good dictionary once it is flushed |
| `Lz4FrameFormat.HeaderStable` | 3rdParty/lz4/lz4frame.c:838-915 | once the bytes at hand decide the header, more bytes do not change the decision |
| `Lz4FrameFormat.FrameStays` | 3rdParty/lz4/lz4frame.c:1059-1468 | bytes that are a whole frame, or have an error, stay so whatever follows them |
| `Lz4FrameFormat.StoredSplit` | 3rdParty/lz4/lz4frame.c:1189-1213 | a stored block may be taken in any two parts |
| `Lz4FrameLayout.HeaderExact` | 3rdParty/lz4/lz4frame.c:838-915 | a header is read as a description if and only if it is, byte for byte, the one that announces it |
| `Lz4FrameLayout.DamagedMagic` | 3rdParty/lz4/lz4frame.c:862-863 | a changed byte of the magic number is refused as an unknown frame type |
| `Lz4FrameLayout.DamagedFlags` | 3rdParty/lz4/lz4frame.c:865-877 | reserved bits, another version and block checksums are refused, each with its error |
| `Lz4FrameLayout.DamagedSize` | 3rdParty/lz4/lz4frame.c:891-897 | reserved bits and unsupported block sizes are refused, each with its error |
| `Lz4FrameLayout.DamagedChecksum` | 3rdParty/lz4/lz4frame.c:899-901 | a wrong header checksum is refused as such |
| `Lz4FrameLayout.FrameDecides` | 3rdParty/lz4/lz4frame.c:1059-1382 | a frame that is laid out has the content of its blocks, with what follows it left over, if and only if the announced size and a flagged checksum are those of the content, and the error of the first thing that is wrong otherwise |
| `Lz4FrameLayout.CutOffIsUnfinished` | 3rdParty/lz4/lz4frame.c:1059-1382 | the beginning of such a frame is unfinished wherever it is cut off |
| `Lz4FrameLayout.FrameLaidOut` | 3rdParty/lz4/lz4frame.c:1059-1382 | whatever has content, and is not skippable, is laid out so and confirmed |
| `Lz4FrameLayout.SkippableDecides` | 3rdParty/lz4/lz4frame.c:1384-1430 | a skippable frame is passed over as a whole |
| `Lz4FrameLayout.SkippableLaidOut` | 3rdParty/lz4/lz4frame.c:1384-1430 | whatever is passed over is laid out as a skippable frame |
| `Lz4FrameLayout.WrongChecksum` | 3rdParty/lz4/lz4frame.c:1375-1378 | a frame whose flagged checksum is wrong has that error |
| `Lz4FrameLayout.DecodeLaidOut` | 3rdParty/lz4/lz4frame.c:1059-1468 | the resumable decoder gives exactly the content of a laid out frame and consumes exactly the frame, whatever the calls |
| `Lz4FrameDecoder.Context.StepGetHeader` | 3rdParty/lz4/lz4frame.c:1088-1099 | leads to the same content as the frame seen at once |
| `Lz4FrameDecoder.Context.StepStoreHeader` | 3rdParty/lz4/lz4frame.c:1101-1116 | the same for a header that arrives in parts |
| `Lz4FrameDecoder.Context.StepInit` | 3rdParty/lz4/lz4frame.c:1118-1141 | the same for the start of the blocks, with an empty dictionary and buffers that are large enough |
| `Lz4FrameDecoder.Context.StepGetCBlockSize` | 3rdParty/lz4/lz4frame.c:1143-1151 | the same for a block size |
| `Lz4FrameDecoder.Context.StepStoreCBlockSize` | 3rdParty/lz4/lz4frame.c:1153-1166 | the same for a block size that arrives in parts |
| `Lz4FrameDecoder.Context.DecodeCBlockSize` | 3rdParty/lz4/lz4frame.c:1169-1187 | the end mark, a stored block and a compressed block are told apart as in the reference |
| `Lz4FrameDecoder.Context.StepCopyDirect` | 3rdParty/lz4/lz4frame.c:1189-1213 | any part of a stored block leads to the same content |
| `Lz4FrameDecoder.Context.StepGetCBlock` | 3rdParty/lz4/lz4frame.c:1215-1224 | the same for a compressed block |
| `Lz4FrameDecoder.Context.StepStoreCBlock` | 3rdParty/lz4/lz4frame.c:1226-1240 | the same for a compressed block that arrives in parts |
| `Lz4FrameDecoder.DecodeWhole` | 3rdParty/lz4/lz4frame.c:1249-1315 | the fast decoder gives what the reference gives for a block behind a dictionary, whatever lies behind the block, and looks at the byte there if and only if the block is one byte of 0xF0 or more |
| `Lz4FrameDecoder.Context.DecodeWindowed` | 3rdParty/lz4/lz4frame.c:1249-1315 | decoding behind the dictionary is decoding behind all the content of the frame |
| `Lz4FrameDecoder.Context.MakeRoom` | 3rdParty/lz4/lz4frame.c:1286-1299 | there is room for a whole block behind the dictionary, or behind space for one, and the dictionary stays good |
| `Lz4FrameDecoder.Context.CutDict` | 3rdParty/lz4/lz4frame.c:1289-1293 | a dictionary of more than 128 KB is cut to its last 64 KB and stays good |
| `Lz4FrameDecoder.Context.UpdateDict` | 3rdParty/lz4/lz4frame.c:983-1039 | whichever of its ways is taken, the dictionary is as good as all the content with the new data |
| `Lz4FrameDecoder.Context.UpdateDictWithin` | 3rdParty/lz4/lz4frame.c:983-1016 | the same for parts of a block that is flushed: once all of it is, the dictionary is good again |
| `Lz4FrameDecoder.Context.PreserveDict` | 3rdParty/lz4/lz4frame.c:1434-1463 | moving the dictionary out of the caller's buffer at the end of a call changes nothing of what is to come |
| `Lz4FrameDecoder.Context.DecodeCBlock` | 3rdParty/lz4/lz4frame.c:1242-1315 | a block is decoded into the output or the buffer, or the frame has that error |
| `Lz4FrameDecoder.Context.StepFlushOut` | 3rdParty/lz4/lz4frame.c:1317-1337 | any part of the buffered output leads to the same content, and the dictionary follows |
| `Lz4FrameDecoder.Context.StepGetSuffix` | 3rdParty/lz4/lz4frame.c:1339-1356 | the content size must be used up; the checksum follows if there is one |
| `Lz4FrameDecoder.Context.StepStoreSuffix` | 3rdParty/lz4/lz4frame.c:1358-1372 | a checksum that arrives in parts |
| `Lz4FrameDecoder.Context.CheckSuffix` | 3rdParty/lz4/lz4frame.c:1375-1382 | the frame ends if and only if the checksum is that of the content |
| `Lz4FrameDecoder.Context.StepSkipSkippable` | 3rdParty/lz4/lz4frame.c:1384-1430 | a skippable frame is passed over, in any parts |
| `Lz4FrameDecoder.Context.Decompress` | 3rdParty/lz4/lz4frame.c:1059-1468 | one call leads to the same content; given input and room it consumes or produces something, and it asks for what the stage lacks and the size of the next block |
| `Lz4FrameDecoder.Context.HintWithinFrame` | 3rdParty/lz4/lz4frame.c:1101-1430 | what is asked for stays within the frame if and only if it is not the header of a skippable frame of less than three bytes that is read |
| `Lz4FrameDecoder.DecodeInPieces` | 3rdParty/lz4/lz4frame.c:1059-1468 | for all calls, with any amounts of input and room, any addresses and stable output or not, and for linked and independent blocks: the content and the consumed length are those of the frame, a failure is exactly the error of the frame or comes with a linked frame of 2^31 bytes or more, output so far is a prefix of the content, and what is all consumed without either is an unfinished frame |
| `Lz4FrameDecoder.DecodeCompletely` | 3rdParty/lz4/lz4frame.c:1059-1468 | a valid frame, shorter than 2^31 bytes if it is linked, is decoded completely in finitely many calls, whatever they are, as long as calls with both input and room recur; those between may lack either |
| `JsonAutomaton.ValueFollows` | 3rdParty/rapidjson/reader.h:1995-2144 | from any state that expects a value, the automaton does what the recursive descent does, for any nesting |
| `JsonAutomaton.MembersFollow` | 3rdParty/rapidjson/reader.h:1857-1897 | the same for the members of an object, with their count |
| `JsonAutomaton.ElementsFollow` | 3rdParty/rapidjson/reader.h:1905-1957 | the same for the elements of an array, with their count |
| `JsonAutomaton.ParsersAgree` | 3rdParty/rapidjson/reader.h:1828-2208 | both parsers give the same events, counts, codes and offsets on every text that does not start with a stray character |
| `JsonAutomaton.ParsersDiffer` | 3rdParty/rapidjson/reader.h:2147-2165 | on a stray first character both fail at the same place, with different codes |
| `JsonReader.Reader.SkipWhitespace` | 3rdParty/rapidjson/reader.h:264-271 | stops at the first character that is not white space |
| `JsonReader.Reader.ReadName` | 3rdParty/rapidjson/reader.h:854-900 | null, true and false, or the position at which the text departs from them |
| `JsonReader.Reader.ReadHex4` | 3rdParty/rapidjson/reader.h:904-923 | the value of four hexadecimal digits |
| `JsonReader.Reader.ReadEscape` | 3rdParty/rapidjson/reader.h:1008-1034 | escapes and surrogate pairs, with the error of each way to go wrong |
| `JsonSyntax.PoppedIsPut` | 3rdParty/rapidjson/reader.h:926-953 | a string and its NUL come back whole from the stack stream if and only if their count fits 32 bits |
| `JsonReader.Reader.ReadString` | 3rdParty/rapidjson/reader.h:957-1054 | the string up to its closing quotation mark, or the first error, or the mark that its 32-bit length has wrapped around |
| `JsonReader.Reader.Accumulate` | 3rdParty/rapidjson/reader.h:1480-1506 | digits are taken while the value fits, so that no accumulation wraps around |
| `JsonReader.Reader.ReadInteger` | 3rdParty/rapidjson/reader.h:1467-1559 | the mathematical value, unless it is outside 64 bits |
| `JsonReader.Reader.ReadNumber` | 3rdParty/rapidjson/reader.h:1454-1732 | the narrowest event for the value; only what is outside [-2^63, 2^64-1] or has a fraction or exponent becomes a double |
| `JsonReader.Reader.ReadObject` | 3rdParty/rapidjson/reader.h:738-802 | delivers the events of the grammar, or those before the first error |
| `JsonReader.Reader.ReadArray` | 3rdParty/rapidjson/reader.h:806-851 | the same for arrays |
| `JsonReader.Reader.ReadValue` | 3rdParty/rapidjson/reader.h:1736-1749 | the same for any value |
| `JsonReader.Reader.Parse` | 3rdParty/rapidjson/reader.h:557-588 | the whole text: one value with white space around it |
| `JsonReader.Reader.IterativeParse` | 3rdParty/rapidjson/reader.h:2176-2208 | the loop over transitions does what the automaton does |
| `JsonSpelling.ScalarSpelled` | 3rdParty/rapidjson/reader.h:1013-1026 | every scalar value, escaped in any case of the digits, as one unit or as a pair, is read as its UTF-8 |
| `JsonSpelling.StringReads` | 3rdParty/rapidjson/reader.h:957-1054 | a string, however its characters are spelled, is read as what it means, unless its length does not fit 32 bits |
| `JsonSpelling.StringSpelled` | 3rdParty/rapidjson/reader.h:957-1054 | whatever is read as a string was spelled so |
| `JsonSpelling.StringFault` | 3rdParty/rapidjson/reader.h:1008-1050 | behind any spelled characters each fault gives its own error at its own offset |
| `JsonSpelling.StringRefused` | 3rdParty/rapidjson/reader.h:1008-1050 | a string that is refused has that fault behind spelled characters |
| `JsonSpelling.LoneHalfAccepted` | 3rdParty/rapidjson/reader.h:1015-1024 | the second half of a surrogate pair is accepted alone and yields no UTF-8 |
| `JsonNumeral.NumeralReads` | 3rdParty/rapidjson/reader.h:1454-1732 | a numeral of the grammar is read as the integer it writes, in the narrowest event, or as a double |
| `JsonNumeral.NumeralWritten` | 3rdParty/rapidjson/reader.h:1454-1732 | whatever is read as a number is such a numeral |
| `JsonNumeral.NumeralRefused` | 3rdParty/rapidjson/reader.h:1508-1600 | a number that is refused lacks a digit of its integer part, fraction or exponent, at the offset |
| `JsonText.TreeReads` | 3rdParty/rapidjson/reader.h:738-851 | the text of any tree of the RFC 8259 grammar, with any white space and spelling, is read as the events of the tree |
| `JsonText.TreeFound` | 3rdParty/rapidjson/reader.h:738-851 | whatever is read as a value is the text of such a tree |
| `JsonText.DocumentReads` | 3rdParty/rapidjson/reader.h:557-588 | every text of the grammar is accepted with the events of its tree |
| `JsonText.DocumentFound` | 3rdParty/rapidjson/reader.h:557-588 | nothing else is accepted |
| `JsonFaults.DocumentFlaw` | 3rdParty/rapidjson/reader.h:557-851 | a text that is refused has at the offset what the error says |
| `JsonFaults.RootBefore` | 3rdParty/rapidjson/reader.h:575-583 | when something follows the value, the value with its events and white space is what is in front of the offset |
| `JsonDom.ConstructorsAgree` | 3rdParty/rapidjson/document.h:712-748 | bits and flags of an integer depend on its value alone, whichever constructor made it |
| `JsonDom.NumberEventValue` | 3rdParty/rapidjson/document.h:1897-1903 | the event sent for a number carries its value |
| `JsonDom.BuildsArray` | 3rdParty/rapidjson/document.h:2471-2477 | the events of an array leave that array on the stack |
| `JsonDom.BuildsObject` | 3rdParty/rapidjson/document.h:2461-2469 | the events of an object leave that object on the stack, member for member |
| `JsonDom.BuildsValue` | 3rdParty/rapidjson/document.h:2437-2477 | the events of any value leave that value on top of whatever was on the stack |
| `JsonPrint.IntegerReads` | 3rdParty/rapidjson/writer.h:312-346 | a printed 64-bit integer is read as that integer |
| `JsonPrint.QuotedReads` | 3rdParty/rapidjson/writer.h:376-448 | a printed string is read as that string, whatever bytes it holds, up to the length whose count fits 32 bits |
| `JsonPrint.WrittenAs` | 3rdParty/rapidjson/writer.h:377-441 | which characters are escaped, and how, character by character |
| `JsonPrint.ValueReads` | 3rdParty/rapidjson/writer.h:181-256 | the text of a value, wherever it stands, is read as the events of the value |
| `JsonPrint.PrintedReads` | 3rdParty/rapidjson/reader.h:557-588 | reading the text of a value gives its events, to the end of the text |
| `JsonPrint.RoundTrip` | 3rdParty/rapidjson/document.h:1868-1905 | a value whose strings the reader can count, written and read again, is the same value |
| `JsonWriter.Writer.Prefix` | 3rdParty/rapidjson/writer.h:472-490 | the separator before a value follows from how many values the level has |
| `JsonWriter.Writer.WriteString` | 3rdParty/rapidjson/writer.h:376-448 | the escaped text of the string, every character of it within the room that was reserved |
| `JsonBuffer.WritableFits` | 3rdParty/rapidjson/writer.h:390-393 | a string whose reservation does not wrap around fits into any buffer, whatever it holds |
| `JsonBuffer.ReservationExact` | 3rdParty/rapidjson/writer.h:390-393 | a fresh buffer holds every string of n characters if and only if 6n + 2 is below 2^32 |
| `JsonBuffer.ReservationWraps` | 3rdParty/rapidjson/writer.h:390-393 | for 715827883 characters room for four is reserved, and NULs run past the end of a fresh buffer |
| `JsonBuffer.LongStringFits` | 3rdParty/rapidjson/writer.h:390-393 | 1200000000 plain characters fit a fresh buffer although their reservation wraps around |
| `JsonBuffer.IntegerFits` | 3rdParty/rapidjson/writer.h:513-542 | the 11, 10, 21 and 20 characters that are pushed for an integer are enough for every one |
| `JsonBuffer.IntegerRooms` | 3rdParty/rapidjson/writer.h:312-346 | these are the lengths of the longest integers, but for one more in 64 bits with a sign |
| `JsonBuffer.BufferGrows` | 3rdParty/rapidjson/internal/stack.h:180-206 | a fresh buffer begins with 256 characters and grows by half |
| `JsonBuffer.WritableTaken` | 3rdParty/rapidjson/writer.h:181-256 | a value without too long a string fits any buffer, event by event |
| `JsonBuffer.WritableStorable` | 3rdParty/rapidjson/writer.h:181-256 | such a value is stored by a fresh writer without overrun |
| `JsonWriter.Writer.Reserve` | 3rdParty/rapidjson/internal/stack.h:115-206 | the capacity grows by half or to what is asked for, whichever is more |
| `JsonWriter.Writer.End` | 3rdParty/rapidjson/writer.h:230-251 | closes the innermost level, which must be of that kind and complete |
| `JsonWriter.AcceptNumber` | 3rdParty/rapidjson/document.h:1897-1903 | the text of a number is that of its value, whichever event carries it |
| `JsonWriter.AcceptArray` | 3rdParty/rapidjson/document.h:1885-1891 | the text of the array, and the writer's assertions hold throughout |
| `JsonWriter.AcceptObject` | 3rdParty/rapidjson/document.h:1874-1884 | the text of the object, and the writer's assertions hold throughout |
| `JsonWriter.Accept` | 3rdParty/rapidjson/document.h:1868-1905 | what is put is the separator and the text of the value, the levels are as before with one more value, and the buffer is what the reservations make it |
| `JsonWriter.Stringify` | 3rdParty/rapidjson/document.h:1868-1905 | for every value that the buffer can hold at each moment a fresh writer puts a text that both parsers read alike, as the value |
| `JsonDocument.Document.TakeAll` | 3rdParty/rapidjson/document.h:2437-2477 | the handler's stack after any events that it can handle |
| `JsonDocument.Reload` | 3rdParty/rapidjson/document.h:1868-2477 | writing a value that the buffer can hold at each moment and parsing its text with either parser gives a document whose root is that value |
| `Utf8.DecodeEncode` | 3rdParty/rapidjson/encodings.h:102-122 | the encoding of a scalar value is valid and decodes to it |
| `Utf8.EncodeDecode` | 3rdParty/rapidjson/encodings.h:146-220 | what is accepted is the encoding of a scalar value: nothing overlong, no surrogate, nothing above 0x10FFFF |
| `Utf8.ValidFits` | 3rdParty/rapidjson/encodings.h:179-202 | a valid character lies within the text |
| `JsonPointer.StringRoundTrip` | 3rdParty/rapidjson/pointer.h:1001-1032 | reading the string form of any tokens gives those tokens |
| `JsonPointer.FragmentRoundTrip` | 3rdParty/rapidjson/pointer.h:1001-1097 | reading the URI fragment form of any tokens that have one gives those tokens |
| `JsonPointer.FragmentExists` | 3rdParty/rapidjson/pointer.h:1019-1026 | a name has a fragment form if and only if it is valid UTF-8 |
| `JsonPointer.TokenForEachSlash` | 3rdParty/rapidjson/pointer.h:871-875 | there are as many tokens as slashes |
| `JsonPointer.TakeCharacter` | 3rdParty/rapidjson/pointer.h:904-913 | a percent-encoded character is put at the position if and only if its triplets make a valid character; what was put before stays |
| `JsonPointer.TakeName` | 3rdParty/rapidjson/pointer.h:895-958 | the buffer holds the name and a NUL, or the error is the one at that offset |
| `JsonPointer.Pointer.Parse` | 3rdParty/rapidjson/pointer.h:862-992 | buffer and tokens hold the names the text says, with their lengths in 32 bits, or the error; a buffer of as many characters as the source is never overrun |
| `JsonPointer.Write` | 3rdParty/rapidjson/pointer.h:1001-1032 | the text of either form, or failure exactly when there is none |
| `JsonPointerText.PointerReads` | 3rdParty/rapidjson/pointer.h:862-992 | every pointer of the RFC 6901 grammar is read as its tokens evaluate, ~1 first and then ~0 |
| `JsonPointerText.PointerFound` | 3rdParty/rapidjson/pointer.h:862-992 | nothing else is read in the string form |
| `JsonPointerText.FragmentIsDecoded` | 3rdParty/rapidjson/pointer.h:898-927 | a fragment that is read gives the tokens of its decoded text if and only if no triplet in it stands for a slash |
| `JsonPointerText.EncodedSlashIsNoSeparator` | 3rdParty/rapidjson/pointer.h:898-927 | #/a%2Fb has one token, /a/b two |
| `JsonPointerText.PointerFault` | 3rdParty/rapidjson/pointer.h:888-947 | a text that is refused has at the offset what the error says |
| `JsonPointerText.FragmentCharacter` | 3rdParty/rapidjson/pointer.h:1001-1032 | the unreserved characters of RFC 3986 are written as themselves, tilde and slash escaped, other ASCII characters as upper-case triplets |
| `JsonPointerText.ReadIndex` | 3rdParty/rapidjson/pointer.h:949-977 | the loops give no index for a name that is no number or becomes smaller with a digit, and its value modulo 2^32 otherwise |
| `JsonPointerText.IndexExact` | 3rdParty/rapidjson/pointer.h:960-977 | the index is right if and only if the number fits 32 bits, or an overflow is noticed, or what is left is the mark for no index |
| `JsonPointerText.WrongIndex` | 3rdParty/rapidjson/pointer.h:964-975 | the token 10000000000 gets the index 1410065408 |
| `PoolAllocator.AlignIsRoundedUp` | 3rdParty/rapidjson/allocators.h:193 | rounding to a multiple of eight is exact if and only if the multiple fits 64 bits |
| `PoolAllocator.GiveKeeps` | 3rdParty/rapidjson/allocators.h:198-200 | a block at the top of the head chunk is aligned, inside it, and apart from every other block |
| `PoolAllocator.GrowKeeps` | 3rdParty/rapidjson/allocators.h:219-225 | the last block may grow in place without touching another |
| `PoolAllocator.ChunkKeeps` | 3rdParty/rapidjson/allocators.h:250-262 | a new chunk keeps all blocks where they are |
| `PoolAllocator.SizeWithinCapacity` | 3rdParty/rapidjson/allocators.h:171-186 | the size never exceeds the capacity |
| `PoolAllocator.TotalFits` | 3rdParty/rapidjson/allocators.h:171-186 | the chunks lie apart in 64-bit memory, so that their capacities and headers add up to no more than 2^64 and neither total wraps around |
| `PoolAllocator.Allocator.Malloc` | 3rdParty/rapidjson/allocators.h:189-201 | for every size: the new block is aligned, behind the 24 bytes of the header and what is in use, and apart from all others, a chunk is added if and only if the head lacks room, and the block lies within 64-bit memory if and only if no sum wraps around; failure changes nothing |
| `PoolAllocator.MallocLargest` | 3rdParty/rapidjson/allocators.h:189-201 | a request for 2^64 - 1 bytes is granted although no memory holds them |
| `PoolAllocator.Allocator.Realloc` | 3rdParty/rapidjson/allocators.h:204-235 | the block stays in place when it can; the new block takes the old one's place and holds its contents, other blocks are untouched, and failure keeps the old block |
| `PoolAllocator.Allocator.Clear` | 3rdParty/rapidjson/allocators.h:158-166 | no chunk is left but the caller's buffer, which is empty |
| `PoolAllocator.Allocator.Capacity` | 3rdParty/rapidjson/allocators.h:171-176 | the sum over the chunks in 64 bits is the true one |
| `PoolAllocator.Allocator.Size` | 3rdParty/rapidjson/allocators.h:181-186 | the sum over the chunks in 64 bits is the true one, at most the capacity |
| `RpcRequest.CheckKeeps` | src/http_json_rpc_request.cpp:78-94 | the locked part of the error handler keeps the invariant whichever flags it finds |
| `RpcRequest.FailKeeps` | src/http_json_rpc_request.cpp:96-117 | retrying or reporting an error keeps the invariant |
| `RpcRequest.ExecuteKeeps` | src/http_json_rpc_request.cpp:122-210 | an attempt starts with no operation outstanding and none too many |
| `RpcRequest.TimeoutKeeps` | src/http_json_rpc_request.cpp:212-259 | a timeout at any moment keeps the invariant |
| `RpcRequest.ProceedKeeps` | src/http_json_rpc_request.cpp:261-413 | the handlers of completed operations keep the invariant |
| `RpcRequest.StepKeeps` | src/http_json_rpc_request.cpp:74-425 | every step keeps the invariant and leaves fewer steps to come |
| `RpcRequest.EveryRun` | src/http_json_rpc_request.cpp:74-425 | every run makes at most max(1, limit) attempts, has at most one operation outstanding, is bounded, and has called the callback exactly once when nothing can happen any more |
| `RpcRequest.StepPast` | src/http_json_rpc_request.cpp:74-425 | every step keeps that operations start in their order, under a timer, and what the callback was given |
| `RpcRequest.EveryOutcome` | src/http_json_rpc_request.cpp:74-425 | over every run: when nothing can happen any more, a read has completed without error and its response was given after all operations of the attempt, or an error was given after exactly max(1, limit) attempts; no operation but resolving is waited for without a timer; the own context is stopped exactly from then on |
| `RpcRequest.FailureIsRetried` | src/http_json_rpc_request.cpp:104-106 | with a limit of three a failed first attempt is followed by another, and nothing was reported |
| `RpcRequest.Request.ErrorHandler` | src/http_json_rpc_request.cpp:74-94 | the method does that step |
| `RpcRequest.Request.OnTimeout` | src/http_json_rpc_request.cpp:212-259 | the method does that step |
| `RpcRequest.Request.Execute` | src/http_json_rpc_request.cpp:122-210 | the method does that step |
| `RpcRequest.Request.Run` | src/http_json_rpc_request.cpp:74-425 | under every scheduler the request ends, with one call of the callback, and an error only after all attempts |
| `SocketPool.CheckoutKeeps` | src/connection_pool.cpp:51-74 | what is given was held by nobody and its connection, if any, is open and goes to that host; nothing is given exactly when the pool is disabled, or full without a node for the host |
| `SocketPool.CheckinKeeps` | src/connection_pool.cpp:76-97 | a node without connection goes away, any other becomes the first ready one with its connection and the new time, nobody holds it, and no other node changes |
| `SocketPool.SweepKeeps` | src/connection_pool.cpp:164-191 | expired nodes go away with their connections, all but those that cannot be assigned, and no busy node is touched |
| `SocketPool.EveryRun` | src/connection_pool.cpp:51-191 | over every interleaving: ready and busy are disjoint, within capacity, every busy node has one holder, every ready connection is open to its own host and no other node's, and none is lost but those that could not be closed |
| `SocketPool.SweepDecides` | src/connection_pool.cpp:164-191 | a sweep keeps a ready node if and only if its time is still to come; the connection of another is closed unless it is stuck |
| `SocketPool.StaysReady` | src/connection_pool.cpp:51-191 | over every run that does not give it out, a ready node stays as it is if and only if all sweeps are before its time, and is gone for good otherwise |
| `SocketPool.CheckedInUntil` | src/connection_pool.cpp:51-191 | a connection checked in until a time is ready and open over every such run, is what the next checkout for its host gives when no other is ready for it, and is gone after a sweep at that time or later |
| `SocketPool.LastIsNext` | src/connection_pool.cpp:51-97 | a connection just checked in is what the next checkout for its host gives, whatever else is ready |
| `SocketPool.Pool.Checkout` | src/connection_pool.cpp:51-74 | the search loop gives the first ready node for the host, or a new one |
| `SocketPool.Pool.Checkin` | src/connection_pool.cpp:76-97 | the search loop finds the node the iterator points to |
| `SocketPool.Pool.Sweep` | src/connection_pool.cpp:164-191 | the two loops remove exactly the expired nodes, close their connections where that is possible, and keep the order of the rest |
| `RequestId.StoiExact` | src/jsonrpc/json_rpc.cpp:47-61 | a text has a number as id if and only if blanks, a sign and digits at its start spell an int |
| `RequestId.GetId` | src/jsonrpc/json_rpc.cpp:47-61 | reading the id throws exactly for a text that spells no int, and gives a 32-bit number otherwise |
| `RequestId.TenNines` | src/jsonrpc/json_rpc.cpp:52-53 | reading the id throws for the text 9999999999 |
| `BatchRequest.NothingToAnswer` | src/json_batch_request.cpp:113-117 | there is nothing to answer if and only if every request is a notification |
| `BatchRequest.AnswerNotification` | src/json_batch_request.cpp:68-142 | a batch of one notification is answered, with an empty array |
| `BatchRequest.Partition` | src/json_batch_request.cpp:93-133 | every request is a notification, answered at once, or awaited |
| `BatchRequest.ExpectedIsAll` | src/json_batch_request.cpp:93-133 | the entries made at once and those awaited are one for each request that is no notification |
| `BatchRequest.EntryOfRequest` | src/json_batch_request.cpp:93-133 | the entry of a request stands behind those of the requests before it and says what it should: -32600 without id for one that is no object or has no method, -32601 with its id as a number for an unknown method, -32603 for an answer that is no JSON, and what the handler answered otherwise |
| `BatchRequest.AnswerUnknown` | src/json_batch_request.cpp:119-124 | an unknown method with the id 7 is answered with that id |
| `BatchRequest.Reordered` | src/json_batch_request.cpp:43-66 | the entries do not depend on the order of completion |
| `BatchRequest.Collector.Process` | src/json_batch_request.cpp:68-142 | the count of answers is right and never goes below zero; an empty batch is an error; the array is sent at once if nothing is awaited and no request throws; after one that throws more answers are counted than can come |
| `BatchRequest.Collector.SendJson` | src/json_batch_request.cpp:43-66 | an answer is added, and the array is sent when it is complete |
| `BatchRequest.Collector.Collect` | src/json_batch_request.cpp:43-142 | for every batch and order of completion: when all answers have come, one array with one entry for each request that is no notification has been sent if and only if no request throws; nothing is sent before the last answer, and nothing ever if one throws |
| `BatchRequest.NeverAnswered` | src/json_batch_request.cpp:119-125 | a batch of one request for a method without handler with the id 9999999999 as text is never answered |
| `HistoryList.SamePrefixIsPrefix` | src/cache/history_cache.cpp:264-269 | for ids without NUL the comparison asks whether the listed id is a prefix of the new one |
| `HistoryList.ListedOnArrival` | src/cache/history_cache.cpp:257-279 | an id that was not listed before is listed when it arrives, or never |
| `HistoryList.OneLengthIsClear` | src/cache/history_cache.cpp:264-269 | ids of one length are never dropped for beginning alike |
| `HistoryList.AllListed` | src/cache/history_cache.cpp:215-215 | a list as long as the history that holds nothing foreign holds all of it, so the loop may stop there |
| `HistoryList.WholeHistory` | src/cache/history_cache.cpp:215-281 | at the end of the loop the list is the history if and only if it was part of it before and no new id has a listed or newer one as proper prefix |
| `HistoryList.NothingNew` | src/cache/history_cache.cpp:257-280 | ids that arrive again change nothing, whether they were listed or dropped |
| `HistoryList.ShortIsShadowed` | src/cache/history_cache.cpp:215-281 | the list stays shorter than the history if and only if an id is dropped |
| `HistoryCache.AbsorbDistinct` | src/cache/history_cache.cpp:257-279 | whatever arrives, no id is listed twice and none goes |
| `HistoryCache.AbsorbRecords` | src/cache/history_cache.cpp:257-279 | whatever arrives for one address, NULs and addresses among the ids included, every id of its list has its own record |
| `HistoryCache.AbsorbKeeps` | src/cache/history_cache.cpp:257-279 | every listed id has a record, no record is lost, and what is saved for addresses stays |
| `HistoryCache.LongerIdDropped` | src/cache/history_cache.cpp:264-272 | a new transaction whose id begins with a listed one is dropped |
| `HistoryCache.PageListed` | src/cache/history_cache.cpp:257-280 | a page makes of the list what its ids make of it one after the other |
| `HistoryCache.Page` | src/cache/history_cache.cpp:219-280 | a page has ten transactions, or what is left |
| `HistoryCache.TransactionHasId` | src/cache/history_cache.cpp:258-262 | the id is the text in the field transaction |
| `HistoryCache.FirstFound` | src/cache/history_cache.cpp:258-259 | of several fields with that name the first is taken |
| `HistoryCache.KeyEndsAtNul` | src/cache/history_cache.cpp:293-312 | what is behind a NUL is not part of the key of a record |
| `HistoryCache.PageAdds` | src/cache/history_cache.cpp:257-279 | what a page adds was in it and was saved, and what was saved counts as listed |
| `HistoryCache.ListedWasSaved` | src/cache/history_cache.cpp:215-281 | every id that the loop adds is that of a transaction in a reply which the database took |
| `HistoryCache.FullStays` | src/cache/history_cache.cpp:215-215 | a list that is long enough is left as it is |
| `HistoryCache.EmptyStartsOver` | src/cache/history_cache.cpp:251-255 | after an empty page the loop goes on as one that starts with what has been gathered |
| `HistoryCache.Lowered` | src/cache/history_cache.cpp:340-340 | addresses are looked up with the letters A to Z made small and nothing else changed |
| `HistoryCache.Cache.TakePage` | src/cache/history_cache.cpp:257-279 | the loops over a page and the list do that, and other addresses are untouched |
| `HistoryCache.Cache.GatherAny` | src/cache/history_cache.cpp:215-281 | against any replies the loop does what they say one after the other, failures and empty pages included, and lists and records stay in order |
| `HistoryCache.Cache.Refresh` | src/cache/history_cache.cpp:205-284 | against a history that does not change, with any number of failed requests between the pages, the loop ends, although its position may start over, and the list is that history if and only if it held nothing else before and no new id is dropped; the list is saved |
| `HistoryEndless.Endless` | src/cache/history_cache.cpp:215-281 | in a history of 2^32 - 1 transactions of which one is dropped the loop goes on after any number of replies, failures among them or not |
| `HistoryEndless.NeverEnds` | src/cache/history_cache.cpp:215-281 | such a history, for which the loop never ends |
| `HistoryRecords.OwnRecord` | src/cache/history_cache.cpp:293-333 | after any writes an id has its own record if and only if the last one under its key is of a transaction with that id |
| `HistoryRecords.ListedOwnRecord` | src/cache/history_cache.cpp:257-333 | after any run every listed id was stored, no two of a list under one key, and it still has its own record under exactly that condition |
| `HistoryRecords.AloneHasRecord` | src/cache/history_cache.cpp:257-333 | a listed id whose key is no address and no other id's always has its own record |
| `HistoryRecords.AddressOverwrites` | src/cache/history_cache.cpp:314-333 | an id whose key is an address loses its record when the list of that address is saved |
| `HistoryRecords.OtherOverwrites` | src/cache/history_cache.cpp:257-279 | an id loses its record when another one with the same key is listed, which can only be for another address |
| `HistoryCache.Cache.SaveHistory` | src/cache/history_cache.cpp:314-333 | the saved text is that of the list, which a fresh writer can hold, and no record is lost |
| `HistoryCache.Cache.GetHistory` | src/cache/history_cache.cpp:335-402 | one record for each id of the saved list, in its order, or nothing exactly when the address is unknown or has nothing saved |

## Left out

- Lz4Decoder.Decompress: the bytes that the code reads before it looks at the end of the input must be readable; what it would make of memory that is not is not modelled.
- Lz4FrameDecoder.Context.StepInit: the allocation of the buffers does not fail.
- LZ4 dictionaries for compression, streaming, destSize and limited-output modes, acceleration other than 1, pointer tables and LZ4HC: the wrapper uses none of them.
- Lz4FrameDecoder.Context.UpdateDict: the decoder's own buffer never ends right where a buffer of the caller's begins. While the header of a following frame is read, the copy of the last frame's dictionary, which is not used any more, is not modelled.
- Lz4FrameDecoder.DecodeInPieces: what the code does once a dictionary of 2^31 bytes or more is passed on, which is marked, is not modelled.
- Lz4FrameDecoder.DecodeCompletely: linked frames of 2^31 bytes or more, for the same reason.
- LZ4F_compressBegin and the rest of the frame encoder: the client does not write frames.
- XXH32: the checksum is a parameter, any function of the bytes hashed so far.
- Compress.CompressBlock: the destination string is empty at the start, as compress leaves it; one that holds more than the bound is not modelled.
- Compress.DecompressBlock: the destination string is empty at the start, as decompress leaves it.
- Doubles: a number that becomes a double is given by its text, whether it is too big is a parameter, and documents hold no doubles.
- Handlers that stop a parse by returning false, in-situ parsing, SIMD scanning, and the flags for comments, trailing commas, NaN and encoding validation.
- The digit tables of the integer printer: numbers are printed as their decimal digits.
- The pretty writer, raw values, and writers that transcode to another encoding.
- Document operations other than Accept and the handler: AddMember, PushBack, comparison, and the allocator's use by them.
- Resolving a pointer in a document, and reads behind a name that ends within a character.
- PoolAllocator.Allocator.WithBuffer: the caller's buffer is taken to be aligned to eight bytes.
- The base allocator: it is a parameter that gives memory not in use, or none.
- Sockets, TLS, DNS, asio, logging, and exceptions other than that of std::stoi. Completions, errors and timeouts are the steps of the environment; stopping the timer waits for a timeout that is being handled, as the timer's own lock makes it do.
- Reuse of a request object by reset_attempts, and a callback that starts the request again.
- SocketPool.EveryRun: the capacity does not change while the pool runs.
- The pool's shutdown, which clears the lists without the lock.
- BatchRequest.Collector.Collect: each awaited handler answers exactly once.
- BatchRequest.Collector.Process: a handler that answers from inside the call that starts it is not modelled.
- HistoryCache.AbsorbKeeps: transactions without doubles that a writer can hold, whose ids hold no NUL and are no addresses; AbsorbDistinct asks for none of this, and HistoryRecords says what becomes of the other ids.
- HistoryCache.Cache.TakePage: the same.
- HistoryCache.Cache.GatherAny: the same.
- HistoryCache.Cache.Refresh: the same, fewer than 2^32 ids in list and history together, and for 2^32 - 1 ids none that is dropped; HistoryEndless.Endless is that case.
- JsonReader.Reader.ReadString: behind the place where a length wraps around, which is marked, the code's behaviour is not modelled.
- JsonReader.Reader.ReadNumber: a double is given by its text, and whether it is too big is a parameter.
- JsonPointer.Pointer.Parse: the index of a token is a method of its own, JsonPointerText.ReadIndex.
- The cache's start, which reads the saved lists back, its stop signal and its timing, and failures of the database other than a refused write of a transaction.
- Request and response bodies, http sessions, settings and statistics: field copying around the parts above.
