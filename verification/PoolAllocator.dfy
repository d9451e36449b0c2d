/**
  The MemoryPoolAllocator of allocators.h: chunks of memory from a base allocator, in each of which blocks are handed out
  one behind the other. Addresses and sizes are 64 bits wide and their arithmetic wraps around. The base allocator is a
  parameter of each call: the address of the memory it gives, if it gives any.
 */
module PoolAllocator {
  import opened Wrappers
  import opened Bytes

  const WORD := 0x1_0000_0000_0000_0000

  /** The size of a chunk's header, which lies in front of its memory. */
  const HEADER := 24

  /** A multiple of eight that is not less, as long as 64 bits hold it. */
  function Align(x: nat): (r: nat)
    requires x < WORD
    ensures r % 8 == 0 && r < WORD
    ensures x <= WORD - 8 ==> x <= r < x + 8
    ensures x > WORD - 8 ==> r == 0
  {
    var y := (x + 7) % WORD;
    y / 8 * 8
  }

  /** The multiple of eight that the size stands for. */
  function RoundedUp(x: nat): (r: nat)
    ensures r % 8 == 0 && x <= r < x + 8
  {
    (x + 7) / 8 * 8
  }

  lemma AlignIsRoundedUp(x: nat)
    requires x < WORD
    ensures Align(x) == RoundedUp(x) <==> RoundedUp(x) < WORD
  {
  }

  lemma RoundedUpTwice(x: nat)
    ensures RoundedUp(RoundedUp(x)) == RoundedUp(x)
  {
  }

  datatype Chunk = Chunk(addr: nat, capacity: nat, size: nat) {
    /** Where the next block would begin. */
    function Top(): (a: nat) { addr + HEADER + size }
    function End(): (a: nat) { addr + HEADER + capacity }
  }

  datatype Block = Block(addr: nat, size: nat)

  // ---------------------------------------------------------------------------------------------
  // What the allocator keeps
  // ---------------------------------------------------------------------------------------------

  predicate ChunkGood(c: Chunk) {
    0 < c.addr && c.addr % 8 == 0 && c.size % 8 == 0 && c.size <= c.capacity && c.End() <= WORD
  }

  predicate ChunksApart(c: Chunk, d: Chunk) {
    c.End() <= d.addr || d.End() <= c.addr
  }

  ghost predicate ChunksGood(chunks: seq<Chunk>) {
    && (forall i | 0 <= i < |chunks| :: ChunkGood(chunks[i]))
    && (forall i, j | 0 <= i < j < |chunks| :: ChunksApart(chunks[i], chunks[j]))
  }

  /** The block lies in the part of the chunk that is in use. */
  predicate Inside(b: Block, c: Chunk) {
    c.addr + HEADER <= b.addr && b.addr + b.size <= c.Top()
  }

  predicate BlocksApart(a: Block, b: Block) {
    a.addr + a.size <= b.addr || b.addr + b.size <= a.addr
  }

  predicate BlockGood(b: Block, chunks: seq<Chunk>) {
    b.size > 0 && b.size % 8 == 0 && b.addr % 8 == 0 && exists i :: 0 <= i < |chunks| && Inside(b, chunks[i])
  }

  /** Blocks are aligned, lie in a chunk, and do not touch one another. */
  ghost predicate BlocksGood(blocks: set<Block>, chunks: seq<Chunk>) {
    && (forall b | b in blocks :: BlockGood(b, chunks))
    && (forall a, b | a in blocks && b in blocks && a != b :: BlocksApart(a, b))
  }

  ghost predicate Good(chunks: seq<Chunk>, blocks: set<Block>) {
    ChunksGood(chunks) && BlocksGood(blocks, chunks)
  }

  /** The chunks after the head has given away n more bytes. */
  function Bumped(chunks: seq<Chunk>, n: nat): (r: seq<Chunk>)
    requires chunks != []
  {
    [chunks[0].(size := chunks[0].size + n)] + chunks[1..]
  }

  lemma BumpedChunks(chunks: seq<Chunk>, n: nat)
    requires chunks != [] && ChunksGood(chunks) && n % 8 == 0 && chunks[0].size + n <= chunks[0].capacity
    ensures ChunksGood(Bumped(chunks, n))
  {
    var r := Bumped(chunks, n);
    forall i | 0 <= i < |r| ensures ChunkGood(r[i]) {
      assert ChunkGood(chunks[i]);
    }
    forall i, j | 0 <= i < j < |r| ensures ChunksApart(r[i], r[j]) {
      assert ChunksApart(chunks[i], chunks[j]);
    }
    hide Bumped;
  }

  lemma BumpedInside(chunks: seq<Chunk>, n: nat, b: Block)
    requires chunks != [] && BlockGood(b, chunks)
    ensures BlockGood(b, Bumped(chunks, n))
  {
    var r := Bumped(chunks, n);
    var i :| 0 <= i < |chunks| && Inside(b, chunks[i]);
    assert Inside(b, r[i]);
  }

  /** A block of the allocator does not reach into memory behind the top of the head. */
  lemma TopIsFree(chunks: seq<Chunk>, b: Block)
    requires chunks != [] && ChunksGood(chunks) && BlockGood(b, chunks)
    ensures b.addr + b.size <= chunks[0].Top() || chunks[0].End() <= b.addr
  {
    var i :| 0 <= i < |chunks| && Inside(b, chunks[i]);
    assert ChunkGood(chunks[i]) && ChunkGood(chunks[0]);
    if i > 0 { assert ChunksApart(chunks[0], chunks[i]); }
  }

  /** A new block at the top of the head. */
  lemma GiveKeeps(chunks: seq<Chunk>, blocks: set<Block>, n: nat)
    requires chunks != [] && Good(chunks, blocks) && n > 0 && n % 8 == 0 && chunks[0].size + n <= chunks[0].capacity
    ensures var b := Block(chunks[0].Top(), n);
            Good(Bumped(chunks, n), blocks + {b}) && (forall a | a in blocks :: BlocksApart(a, b)) && b !in blocks
  {
    hide ChunksGood, Bumped, BlockGood;
    var b := Block(chunks[0].Top(), n);
    var r := Bumped(chunks, n);
    BumpedChunks(chunks, n);
    GivenGood(chunks, n);
    forall a | a in blocks ensures BlockGood(a, r) && BlocksApart(a, b) && a != b {
      BumpedInside(chunks, n, a);
      TopIsFree(chunks, a);
      SizePositive(chunks, a);
    }
  }

  lemma SizePositive(chunks: seq<Chunk>, b: Block)
    requires BlockGood(b, chunks)
    ensures b.size > 0
  {
  }

  lemma GivenGood(chunks: seq<Chunk>, n: nat)
    requires chunks != [] && ChunksGood(chunks) && n > 0 && n % 8 == 0
    ensures BlockGood(Block(chunks[0].Top(), n), Bumped(chunks, n))
  {
    HeadGood(chunks);
    assert Inside(Block(chunks[0].Top(), n), Bumped(chunks, n)[0]);
    hide ChunksGood;
  }

  /** The last block of the head grows. */
  lemma GrowKeeps(chunks: seq<Chunk>, blocks: set<Block>, b: Block, n: nat)
    requires chunks != [] && Good(chunks, blocks) && b in blocks && b.addr + b.size == chunks[0].Top()
    requires n > 0 && n % 8 == 0 && chunks[0].size + n <= chunks[0].capacity
    ensures Good(Bumped(chunks, n), blocks - {b} + {Block(b.addr, b.size + n)})
  {
    hide ChunksGood, Bumped, BlockGood;
    var r, grown := Bumped(chunks, n), Block(b.addr, b.size + n);
    BumpedChunks(chunks, n);
    GrownGood(chunks, b, n);
    forall a | a in blocks ensures BlockGood(a, r) && (a != b ==> BlocksApart(a, grown)) {
      BumpedInside(chunks, n, a);
      TopIsFree(chunks, a);
    }
  }

  lemma GrownGood(chunks: seq<Chunk>, b: Block, n: nat)
    requires chunks != [] && ChunksGood(chunks) && BlockGood(b, chunks) && b.addr + b.size == chunks[0].Top() && n % 8 == 0
    ensures BlockGood(Block(b.addr, b.size + n), Bumped(chunks, n))
  {
    LastIsInHead(chunks, b);
    assert Inside(Block(b.addr, b.size + n), Bumped(chunks, n)[0]);
    hide ChunksGood;
  }

  lemma LastIsInHead(chunks: seq<Chunk>, b: Block)
    requires chunks != [] && ChunksGood(chunks) && BlockGood(b, chunks) && b.addr + b.size == chunks[0].Top()
    ensures Inside(b, chunks[0])
  {
    var i :| 0 <= i < |chunks| && Inside(b, chunks[i]);
    assert ChunkGood(chunks[i]) && ChunkGood(chunks[0]);
    if i > 0 { assert ChunksApart(chunks[0], chunks[i]); }
  }

  /** A block is used to a smaller extent. */
  lemma ShrinkKeeps(chunks: seq<Chunk>, blocks: set<Block>, b: Block, n: nat)
    requires Good(chunks, blocks) && b in blocks && 0 < n <= b.size && n % 8 == 0
    ensures Good(chunks, blocks - {b} + {Block(b.addr, n)})
  {
    var small := Block(b.addr, n);
    var i :| 0 <= i < |chunks| && Inside(b, chunks[i]);
    assert Inside(small, chunks[i]);
    hide ChunksGood;
  }

  lemma FewerKeeps(chunks: seq<Chunk>, blocks: set<Block>, fewer: set<Block>)
    requires Good(chunks, blocks) && fewer <= blocks
    ensures Good(chunks, fewer)
  {
  }

  /** Memory that touches no chunk. */
  predicate Unused(chunks: seq<Chunk>, addr: nat, size: nat) {
    0 < addr && addr % 8 == 0 && addr + size <= WORD &&
    forall i | 0 <= i < |chunks| :: addr + size <= chunks[i].addr || chunks[i].End() <= addr
  }

  /** A new chunk becomes the head. */
  lemma ChunkKeeps(chunks: seq<Chunk>, blocks: set<Block>, addr: nat, capacity: nat)
    requires Good(chunks, blocks) && Unused(chunks, addr, HEADER + capacity)
    ensures Good([Chunk(addr, capacity, 0)] + chunks, blocks)
  {
    var r := [Chunk(addr, capacity, 0)] + chunks;
    assert forall i | 0 < i < |r| :: r[i] == chunks[i - 1];
    forall b | b in blocks ensures BlockGood(b, r) {
      var i :| 0 <= i < |chunks| && Inside(b, chunks[i]);
      assert Inside(b, r[i + 1]);
    }
  }

  /** The last chunk is the caller's buffer, if there is one. */
  predicate Ends(chunks: seq<Chunk>, user: Option<nat>) {
    user.Some? ==> chunks != [] && chunks[|chunks| - 1].addr == user.value
  }

  // ---------------------------------------------------------------------------------------------
  // Totals
  // ---------------------------------------------------------------------------------------------

  function TotalSize(chunks: seq<Chunk>, k: nat): (r: nat)
    requires k <= |chunks|
  {
    if k == 0 then 0 else TotalSize(chunks, k - 1) + chunks[k - 1].size
  }

  function TotalCapacity(chunks: seq<Chunk>, k: nat): (r: nat)
    requires k <= |chunks|
  {
    if k == 0 then 0 else TotalCapacity(chunks, k - 1) + chunks[k - 1].capacity
  }

  lemma {:induction false} SizeWithinCapacity(chunks: seq<Chunk>, k: nat)
    requires k <= |chunks| && ChunksGood(chunks)
    ensures TotalSize(chunks, k) <= TotalCapacity(chunks, k)
  {
    if k > 0 {
      assert ChunkGood(chunks[k - 1]);
      SizeWithinCapacity(chunks, k - 1);
    }
  }

  function Range(a: nat, b: nat): (r: set<nat>)
    requires a <= b
    ensures |r| == b - a && forall x :: x in r <==> a <= x < b
    decreases b - a
  {
    if a == b then {} else {a} + Range(a + 1, b)
  }

  /** The addresses of the first k chunks, headers included. */
  function Occupied(chunks: seq<Chunk>, k: nat): (r: set<nat>)
    requires k <= |chunks|
    ensures forall x | x in r :: exists i :: 0 <= i < k && chunks[i].addr <= x < chunks[i].End()
  {
    if k == 0 then {} else Occupied(chunks, k - 1) + Range(chunks[k - 1].addr, chunks[k - 1].End())
  }

  lemma OccupiedApart(chunks: seq<Chunk>, k: nat)
    requires k < |chunks| && ChunksGood(chunks)
    ensures Occupied(chunks, k) !! Range(chunks[k].addr, chunks[k].End())
  {
    hide Occupied, Range;
    forall x | x in Occupied(chunks, k) ensures x !in Range(chunks[k].addr, chunks[k].End()) {
      var i :| 0 <= i < k && chunks[i].addr <= x < chunks[i].End();
      assert ChunksApart(chunks[i], chunks[k]);
    }
  }

  lemma UnionSize(a: set<nat>, b: set<nat>)
    requires a !! b
    ensures |a + b| == |a| + |b|
  {
  }

  lemma {:induction false} OccupiedSize(chunks: seq<Chunk>, k: nat)
    requires k <= |chunks| && ChunksGood(chunks)
    ensures |Occupied(chunks, k)| == TotalCapacity(chunks, k) + HEADER * k
  {
    hide ChunksGood, Range, Occupied;
    if k == 0 {
      NoneOccupied(chunks);
    } else {
      OccupiedSize(chunks, k - 1);
      OccupiedStep(chunks, k - 1);
    }
  }

  lemma NoneOccupied(chunks: seq<Chunk>)
    ensures Occupied(chunks, 0) == {}
  {
  }

  lemma OccupiedStep(chunks: seq<Chunk>, k: nat)
    requires k < |chunks| && ChunksGood(chunks)
    ensures |Occupied(chunks, k + 1)| == |Occupied(chunks, k)| + HEADER + chunks[k].capacity
  {
    hide ChunksGood, Range;
    OccupiedApart(chunks, k);
    UnionSize(Occupied(chunks, k), Range(chunks[k].addr, chunks[k].End()));
  }

  lemma OccupiedBelow(chunks: seq<Chunk>, k: nat, top: nat)
    requires k <= |chunks| && ChunksGood(chunks) && top == WORD
    ensures |Occupied(chunks, k)| <= top
  {
    hide Occupied, Range;
    var all, memory := Occupied(chunks, k), Range(0, top);
    forall x | x in all ensures x in memory {
      var i :| 0 <= i < k && chunks[i].addr <= x < chunks[i].End();
      assert ChunkGood(chunks[i]);
    }
    assert memory == all + (memory - all);
  }

  /** The chunks lie apart in 64-bit memory, so that neither total wraps around. */
  lemma TotalFits(chunks: seq<Chunk>, k: nat)
    requires k <= |chunks| && ChunksGood(chunks)
    ensures TotalCapacity(chunks, k) + HEADER * k <= WORD
    ensures TotalSize(chunks, k) <= TotalCapacity(chunks, k) < WORD
  {
    hide ChunksGood, Occupied;
    OccupiedSize(chunks, k);
    SizeWithinCapacity(chunks, k);
    OccupiedBelow(chunks, k, WORD);
  }

  // ---------------------------------------------------------------------------------------------
  // The allocator
  // ---------------------------------------------------------------------------------------------

  class Allocator {
    const chunkCapacity: nat
    const user: Option<nat> // the caller's buffer
    var chunks: seq<Chunk> // the head first
    var memory: nat -> byte
    ghost var blocks: set<Block> // what callers hold

    ghost predicate Valid()
      reads this
    {
      Good(chunks, blocks) && HEADER + chunkCapacity < WORD && Ends(chunks, user)
    }

    constructor (chunkCapacity: nat, memory: nat -> byte)
      requires HEADER + chunkCapacity < WORD
      ensures Valid() && blocks == {} && chunks == [] && this.memory == memory
    {
      this.chunkCapacity, user, chunks, this.memory, blocks := chunkCapacity, None, [], memory, {};
    }

    /** The first chunk is a buffer of the caller's. */
    constructor WithBuffer(buffer: nat, size: nat, chunkCapacity: nat, memory: nat -> byte)
      requires HEADER + chunkCapacity < WORD && size > HEADER && Unused([], buffer, size)
      ensures Valid() && blocks == {} && chunks == [Chunk(buffer, size - 24, 0)] && this.memory == memory
    {
      this.chunkCapacity, user, this.memory, blocks := chunkCapacity, Some(buffer), memory, {};
      chunks := [Chunk(buffer, size - HEADER, 0)];
    }

    function HeadSize(): (n: nat)
      reads this
    {
      if chunks == [] then 0 else chunks[0].size
    }

    /** The capacity of the chunk that is added for n bytes. */
    function NewCapacity(n: nat): (c: nat)
      ensures n <= c && chunkCapacity <= c && (c == n || c == chunkCapacity)
    {
      if chunkCapacity > n then chunkCapacity else n
    }

    /** The sums of Malloc stay within 64 bits. */
    predicate InRange(size: nat)
      reads this
    {
      RoundedUp(size) + HEADER < WORD && RoundedUp(size) + HeadSize() < WORD
    }

    /** What the base allocator gives for a chunk for n bytes is not in use. */
    predicate BaseGood(base: Option<nat>, n: nat)
      reads this
    {
      base.Some? ==> Unused(chunks, base.value, (HEADER + NewCapacity(n)) % WORD)
    }

    /** The chunks with room for n bytes in the head: a new chunk comes only when the head has too little. */
    function WithRoom(n: nat, base: nat): (r: seq<Chunk>)
      reads this
    {
      if chunks != [] && chunks[0].size + n <= chunks[0].capacity then chunks else [Chunk(base, NewCapacity(n), 0)] + chunks
    }

    method AddChunk(capacity: nat, base: Option<nat>) returns (ok: bool)
      modifies this`chunks
      ensures ok == base.Some? && chunks == if ok then [Chunk(base.value, capacity, 0)] + old(chunks) else old(chunks)
    {
      if base.None? {
        return false;
      }
      chunks := [Chunk(base.value, capacity, 0)] + chunks;
      return true;
    }

    /** The head has room for n bytes, or a chunk has been added that has. */
    method EnsureRoom(n: nat, base: Option<nat>) returns (ok: bool)
      requires Valid() && n < WORD && BaseGood(base, n)
      modifies this`chunks
      ensures !ok ==> chunks == old(chunks) && base.None?
      ensures ok ==> chunks != []
      ensures ok && n + old(HeadSize()) < WORD ==> chunks == old(WithRoom(n, if base.Some? then base.value else 0))
      ensures ok && n + HEADER < WORD && n + old(HeadSize()) < WORD ==> Valid() && chunks[0].size + n <= chunks[0].capacity
      ensures ok && (n + HEADER >= WORD || n + old(HeadSize()) >= WORD) ==> chunks[0].Top() + n > WORD
    {
      hide ChunksGood, BlocksGood;
      if chunks != [] { HeadGood(chunks); }
      if chunks == [] || (chunks[0].size + n) % WORD > chunks[0].capacity {
        if base.Some? && n + HEADER < WORD { ChunkKeeps(chunks, blocks, base.value, NewCapacity(n)); }
        ok := AddChunk(NewCapacity(n), base);
      } else {
        ok := true;
      }
    }

    /** The head has n bytes to give. */
    ghost predicate HasRoom(n: nat)
      reads this
    {
      Valid() && n > 0 && chunks != [] && chunks[0].size + n <= chunks[0].capacity
    }

    /** The head gives away n bytes. */
    method Give(n: nat)
      requires chunks != [] && n % 8 == 0
      modifies this`chunks, this`blocks
      ensures blocks == old(blocks) + {Block(old(chunks)[0].Top(), n)}
      ensures old(HasRoom(n)) ==> Valid() && chunks == Bumped(old(chunks), n) && Block(old(chunks)[0].Top(), n) !in old(blocks)
    {
      hide ChunksGood, BlocksGood;
      ghost var b := Block(chunks[0].Top(), n);
      if HasRoom(n) {
        GiveKeeps(chunks, blocks, n);
        HeadGood(chunks);
      }
      blocks := blocks + {b};
      chunks := [chunks[0].(size := (chunks[0].size + n) % WORD)] + chunks[1..];
    }

    /** Malloc. */
    method Malloc(size: nat, base: Option<nat>) returns (r: Option<nat>)
      requires Valid() && size < WORD && BaseGood(base, Align(size))
      modifies this
      ensures memory == old(memory)
      ensures r.None? ==> Valid() && (size == 0 || base.None?) && chunks == old(chunks) && blocks == old(blocks)
      ensures r.Some? && old(InRange(size)) ==> Valid() && Block(r.value, RoundedUp(size)) !in old(blocks)
      ensures r.Some? && old(InRange(size)) ==> blocks == old(blocks) + {Block(r.value, RoundedUp(size))}
      ensures r.Some? && old(InRange(size)) ==>
                var ready := old(WithRoom(RoundedUp(size), if base.Some? then base.value else 0));
                r.value == ready[0].addr + 24 + ready[0].size && chunks == Bumped(ready, RoundedUp(size))
      ensures r.Some? && old(InRange(size)) ==>
                (|chunks| == |old(chunks)| <==> old(chunks) != [] && old(chunks)[0].size + RoundedUp(size) <= old(chunks)[0].capacity)
      ensures r.Some? ==> size > 0 && (old(InRange(size)) <==> r.value + RoundedUp(size) <= WORD)
    {
      if size == 0 {
        return None;
      }
      hide Align, RoundedUp, ChunksGood, BlocksGood;
      var n := Align(size);
      AlignIsRoundedUp(size);
      var ok := EnsureRoom(n, base);
      if !ok {
        return None;
      }
      r := Some(chunks[0].Top());
      Give(n);
    }

    /** The contents of the first n bytes at q are those that were at p. */
    twostate predicate Copied(p: nat, q: nat, n: nat)
      reads this
    {
      forall a: nat | q <= a < q + n :: memory(a) == old(memory)(a - q + p)
    }

    /** The contents of the blocks are the same. */
    twostate predicate Untouched(others: set<Block>)
      reads this
    {
      forall b | b in others :: forall a: nat | b.addr <= a < b.addr + b.size :: memory(a) == old(memory)(a)
    }

    /** memcpy. */
    method Copy(p: nat, q: nat, n: nat)
      modifies this`memory
      ensures Copied(p, q, n)
      ensures forall b | b in blocks && (b.addr + b.size <= q || q + n <= b.addr) :: Untouched({b})
    {
      var m := memory;
      memory := (a: nat) => if q <= a < q + n then m(a - q + p) else m(a);
    }

    /** The last block of the head grows if there is room, or the sum wraps around. */
    method Grow(p: nat, size: nat, more: nat) returns (ok: bool)
      requires Valid() && Block(p, size) in blocks && chunks != [] && p + size == chunks[0].Top() && 0 < more < WORD && more % 8 == 0
      modifies this`chunks, this`blocks
      ensures ok <==> old(chunks)[0].size + more >= WORD || old(chunks)[0].size + more <= old(chunks)[0].capacity
      ensures !ok ==> Valid() && chunks == old(chunks) && blocks == old(blocks)
      ensures ok && old(chunks)[0].size + more < WORD ==>
                Valid() && chunks == Bumped(old(chunks), more) && blocks == old(blocks) - {Block(p, size)} + {Block(p, size + more)}
    {
      hide ChunksGood, BlocksGood;
      HeadGood(chunks);
      ok := false;
      if (chunks[0].size + more) % WORD <= chunks[0].capacity {
        if chunks[0].size + more < WORD { GrowKeeps(chunks, blocks, Block(p, size), more); }
        blocks := blocks - {Block(p, size)} + {Block(p, size + more)};
        chunks := [chunks[0].(size := (chunks[0].size + more) % WORD)] + chunks[1..];
        ok := true;
      }
    }

    /** A block moves to a larger one. */
    method Move(p: nat, o: nat, n: nat, base: Option<nat>) returns (r: Option<nat>)
      requires Valid() && Block(p, o) in blocks && n < WORD && n % 8 == 0 && 0 < o < n && BaseGood(base, n)
      modifies this
      ensures r.None? ==> Valid() && base.None? && blocks == old(blocks) && memory == old(memory)
      ensures r.Some? ==> (old(InRange(n)) <==> r.value + n <= WORD)
      ensures r.Some? && old(InRange(n)) ==> Valid() && blocks == old(blocks) - {Block(p, o)} + {Block(r.value, n)}
      ensures r.Some? && old(InRange(n)) ==> Copied(p, r.value, o) && Untouched(old(blocks) * blocks)
    {
      hide ChunksGood, BlocksGood;
      assert Align(n) == RoundedUp(n) == n;
      r := Malloc(n, base);
      if r.Some? {
        if old(InRange(n)) {
          OthersApart(chunks, blocks, Block(r.value, n));
          FewerKeeps(chunks, blocks, blocks - {Block(p, o)});
        }
        Copy(p, r.value, o);
        blocks := blocks - {Block(p, o)};
      }
    }

    /** The block that a call names is one that was handed out. */
    ghost predicate Names(p: Option<nat>, originalSize: nat)
      reads this
    {
      originalSize < WORD && (p.Some? ==> Block(p.value, RoundedUp(originalSize)) in blocks)
    }

    /** The block is the last one, and the head has room behind it for n bytes in all. */
    predicate LastWithRoom(p: nat, o: nat, n: nat)
      reads this
    {
      chunks != [] && p + o == chunks[0].Top() && chunks[0].size + n - o <= chunks[0].capacity
    }

    /** The new size needs no more room than the block has, or than the head has behind it. */
    predicate InPlace(p: Option<nat>, originalSize: nat, newSize: nat)
      reads this
    {
      var o, n := RoundedUp(originalSize), RoundedUp(newSize);
      p.Some? && (n <= o || LastWithRoom(p.value, o, n))
    }

    /** The block can stay where it is, or the sums of Malloc stay within 64 bits. */
    predicate Serves(p: Option<nat>, originalSize: nat, newSize: nat)
      reads this
    {
      InRange(newSize) || InPlace(p, originalSize, newSize)
    }

    /** The block instead of an old one. */
    ghost function Instead(p: Option<nat>, originalSize: nat, b: Block): (r: set<Block>)
      reads this
    {
      (if p.Some? then blocks - {Block(p.value, RoundedUp(originalSize))} else blocks) + {b}
    }

    /**
      Realloc. The new block takes the place of the old one and holds what that held; the other blocks are not touched. When
      memory is short the old block stays as it is.
     */
    method Realloc(p: Option<nat>, originalSize: nat, newSize: nat, base: Option<nat>) returns (r: Option<nat>)
      requires Valid() && Names(p, originalSize) && newSize < WORD && BaseGood(base, Align(newSize))
      modifies this
      ensures r.None? && newSize > 0 ==> Valid() && base.None? && blocks == old(blocks) && memory == old(memory)
      ensures newSize == 0 ==> r.None? && Valid() && memory == old(memory) && chunks == old(chunks)
      ensures newSize > 0 && old(InPlace(p, originalSize, newSize)) ==> r == p && memory == old(memory)
      ensures r.Some? ==> (old(Serves(p, originalSize, newSize)) <==> r.value + RoundedUp(newSize) <= WORD)
      ensures r.Some? && old(Serves(p, originalSize, newSize)) ==>
                Valid() && blocks == old(Instead(p, originalSize, Block(r.value, RoundedUp(newSize)))) && Untouched(old(blocks) * blocks)
      ensures r.Some? && old(Serves(p, originalSize, newSize)) && p.Some? ==>
                Copied(p.value, r.value, if originalSize <= newSize then originalSize else newSize)
    {
      hide ChunksGood, BlocksGood, Align, RoundedUp;
      AlignIsRoundedUp(newSize);
      if p.None? {
        r := Malloc(newSize, base);
        return;
      }
      ghost var b := Block(p.value, RoundedUp(originalSize));
      if newSize == 0 {
        FewerKeeps(chunks, blocks, blocks - {b});
        blocks := blocks - {b};
        return None;
      }
      r := Resize(p.value, originalSize, newSize, base);
    }

    /** Realloc of a block to a size that is not zero. */
    method Resize(p: nat, originalSize: nat, newSize: nat, base: Option<nat>) returns (r: Option<nat>)
      requires Valid() && Names(Some(p), originalSize) && 0 < newSize < WORD && BaseGood(base, Align(newSize))
      modifies this
      ensures r.None? ==> Valid() && base.None? && blocks == old(blocks) && memory == old(memory)
      ensures old(InPlace(Some(p), originalSize, newSize)) ==> r == Some(p) && memory == old(memory)
      ensures r.Some? ==> (old(Serves(Some(p), originalSize, newSize)) <==> r.value + RoundedUp(newSize) <= WORD)
      ensures r.Some? && old(Serves(Some(p), originalSize, newSize)) ==>
                Valid() && blocks == old(Instead(Some(p), originalSize, Block(r.value, RoundedUp(newSize)))) && Untouched(old(blocks) * blocks)
      ensures r.Some? && old(Serves(Some(p), originalSize, newSize)) ==>
                Copied(p, r.value, if originalSize <= newSize then originalSize else newSize)
    {
      hide ChunksGood, BlocksGood, Align, RoundedUp, ChunkGood;
      ghost var b := Block(p, RoundedUp(originalSize));
      AlignIsRoundedUp(newSize);
      BlockSize(chunks, blocks, b);
      HeadSizes(chunks);
      AlignIsRoundedUp(originalSize);
      var o, n := Align(originalSize), Align(newSize);
      if o >= n {
        if n > 0 { ShrinkKeeps(chunks, blocks, b, n); }
        blocks := blocks - {b} + {Block(p, n)};
        return Some(p);
      }
      RoundedUpTwice(newSize);
      r := Enlarge(p, o, n, base);
    }

    /** A block grows in place if it is the last one and there is room, and moves otherwise; the sizes are multiples of eight. */
    method Enlarge(p: nat, o: nat, n: nat, base: Option<nat>) returns (r: Option<nat>)
      requires Valid() && Block(p, o) in blocks && n < WORD && n % 8 == 0 && 0 < o < n && BaseGood(base, n)
      modifies this
      ensures r.None? ==> Valid() && base.None? && blocks == old(blocks) && memory == old(memory)
      ensures old(LastWithRoom(p, o, n)) ==> r == Some(p) && memory == old(memory)
      ensures r.Some? ==> (old(InRange(n) || LastWithRoom(p, o, n)) <==> r.value + n <= WORD)
      ensures r.Some? && r.value + n <= WORD ==>
                Valid() && blocks == old(blocks) - {Block(p, o)} + {Block(r.value, n)} && Copied(p, r.value, o) && Untouched(old(blocks) * blocks)
    {
      hide ChunksGood, BlocksGood, ChunkGood;
      BlockSize(chunks, blocks, Block(p, o));
      HeadSizes(chunks);
      assert RoundedUp(n) == n;
      if p == chunks[0].Top() - o {
        var ok := Grow(p, o, n - o);
        if ok {
          return Some(p);
        }
      }
      r := Move(p, o, n, base);
    }

    /** Clear: the chunks go back to the base allocator; the caller's buffer is empty again. */
    method Clear()
      requires Valid()
      modifies this
      ensures Valid() && blocks == {} && |chunks| == (if user.Some? then 1 else 0)
      ensures user.Some? ==> chunks == [old(chunks)[|old(chunks)| - 1].(size := 0)]
    {
      hide ChunksGood, BlocksGood;
      ghost var last := if user.Some? then chunks[|chunks| - 1] else Chunk(0, 0, 0);
      while chunks != [] && user != Some(chunks[0].addr)
        invariant ChunksGood(chunks) && Ends(chunks, user)
        invariant user.Some? ==> chunks[|chunks| - 1] == last
        decreases |chunks|
      {
        TailGood(chunks);
        chunks := chunks[1..];
      }
      blocks := {};
      if chunks != [] {
        OnlyUser(chunks);
        HeadGood(chunks);
        chunks := [chunks[0].(size := 0)] + chunks[1..];
      }
      AtMostOne(chunks);
    }

    /** Capacity, a sum in 64 bits that never wraps around. */
    method Capacity() returns (r: nat)
      requires Valid()
      ensures r == TotalCapacity(chunks, |chunks|) && r + HEADER * |chunks| <= WORD
    {
      hide ChunksGood;
      r := 0;
      for k := 0 to |chunks|
        invariant r == TotalCapacity(chunks, k)
      {
        TotalFits(chunks, k + 1);
        r := (r + chunks[k].capacity) % WORD;
      }
      TotalFits(chunks, |chunks|);
    }

    /** Size, which adds in 64 bits too and never exceeds Capacity. */
    method Size() returns (r: nat)
      requires Valid()
      ensures r == TotalSize(chunks, |chunks|) <= TotalCapacity(chunks, |chunks|)
    {
      hide ChunksGood;
      r := 0;
      for k := 0 to |chunks|
        invariant r == TotalSize(chunks, k)
      {
        TotalFits(chunks, k + 1);
        r := (r + chunks[k].size) % WORD;
      }
      TotalFits(chunks, |chunks|);
    }
  }

  lemma OthersApart(chunks: seq<Chunk>, blocks: set<Block>, b: Block)
    requires Good(chunks, blocks) && b in blocks
    ensures forall a | a in blocks && a != b :: BlocksApart(a, b)
  {
  }

  lemma BlockSize(chunks: seq<Chunk>, blocks: set<Block>, b: Block)
    requires Good(chunks, blocks) && b in blocks
    ensures chunks != [] && 0 < b.size < WORD && b.size % 8 == 0 && 0 < b.addr && b.addr + b.size <= WORD
    ensures b.addr + b.size == chunks[0].Top() ==> b.size <= chunks[0].size
  {
    if chunks != [] && b.addr + b.size == chunks[0].Top() { LastIsInHead(chunks, b); }
    var i :| 0 <= i < |chunks| && Inside(b, chunks[i]);
    assert ChunkGood(chunks[i]);
  }

  lemma AtMostOne(chunks: seq<Chunk>)
    requires |chunks| <= 1 && forall c | c in chunks :: ChunkGood(c)
    ensures Good(chunks, {})
  {
  }

  lemma TailGood(chunks: seq<Chunk>)
    requires chunks != [] && ChunksGood(chunks)
    ensures ChunksGood(chunks[1..])
  {
  }

  /** The head is the last chunk when it has the last chunk's address. */
  lemma OnlyUser(chunks: seq<Chunk>)
    requires chunks != [] && ChunksGood(chunks) && chunks[|chunks| - 1].addr == chunks[0].addr
    ensures |chunks| == 1
  {
  }

  lemma HeadSizes(chunks: seq<Chunk>)
    requires ChunksGood(chunks) && chunks != []
    ensures chunks[0].size <= chunks[0].capacity && 0 < chunks[0].addr && chunks[0].End() <= WORD
  {
    HeadGood(chunks);
  }

  lemma HeadGood(chunks: seq<Chunk>)
    requires ChunksGood(chunks) && chunks != []
    ensures ChunkGood(chunks[0])
  {
  }

  /** The largest size is rounded to nothing. */
  lemma LargestIsNothing()
    ensures Align(WORD - 1) == 0 && RoundedUp(WORD - 1) == WORD
  {
  }

  /** A request for the largest size is granted although no memory holds it. */
  method MallocLargest(a: Allocator, base: nat) returns (r: nat)
    requires a.Valid() && a.BaseGood(Some(base), 0)
    modifies a
    ensures r + RoundedUp(WORD - 1) > WORD
  {
    LargestIsNothing();
    var p := a.Malloc(WORD - 1, Some(base));
    r := p.value;
  }
}
