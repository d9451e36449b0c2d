/**
  Blocks that refer to what was produced before them. A match reaches at most 65535 bytes back, so that the last 64 KB of the
  history are as good as all of it.
 */
module Lz4Dictionary {
  import opened Wrappers
  import opened Bytes
  import opened Lz4Format

  const WINDOW := 0x1_0000

  /** What a block decodes to behind a history, in room for `capacity` bytes. */
  function DecodeWith(history: seq<byte>, block: seq<byte>, capacity: int): (r: Option<seq<byte>>)
    ensures r.Some? ==> |r.value| <= capacity
  {
    match Decode(block, |history| + capacity, 0, history)
    case None => None
    case Some(out) => if |history| <= |out| then Some(out[|history|..]) else None
  }

  /** Without history it decodes as a block of its own. */
  lemma DecodeWithNothing(block: seq<byte>, capacity: nat)
    requires capacity > 0
    ensures DecodeWith([], block, capacity) == DecodeBlock(block, capacity)
  {
  }

  /** The histories are equal, or at least their last 64 KB are. */
  ghost predicate Agree(a: seq<byte>, b: seq<byte>) {
    a == b || (|a| >= WINDOW && |b| >= WINDOW && a[|a| - WINDOW..] == b[|b| - WINDOW..])
  }

  lemma AgreeAppend(a: seq<byte>, b: seq<byte>, x: seq<byte>)
    requires Agree(a, b)
    ensures Agree(a + x, b + x)
  {
    if a != b {
      var m, n := |a| - WINDOW, |b| - WINDOW;
      var c, d := (a + x)[|a + x| - WINDOW..], (b + x)[|b + x| - WINDOW..];
      forall k | 0 <= k < WINDOW ensures c[k] == d[k] {
        if k + |x| < WINDOW { assert a[m..][k + |x|] == b[n..][k + |x|]; }
      }
    }
  }

  lemma AgreeByte(a: seq<byte>, b: seq<byte>, offset: nat)
    requires Agree(a, b) && offset < WINDOW
    ensures MatchByte(a, offset) == MatchByte(b, offset) && (offset <= |a| <==> offset <= |b|)
  {
    if a != b && offset > 0 {
      assert a[|a| - WINDOW..][WINDOW - offset] == b[|b| - WINDOW..][WINDOW - offset];
    }
  }

  lemma Appended(a: seq<byte>, x: seq<byte>, y: seq<byte>)
    ensures a + x + y == a + (x + y)
  {
  }

  lemma CopyStep(out: seq<byte>, offset: nat, length: nat)
    ensures CopyMatch(out, offset, length) == if length == 0 then out else CopyMatch(out + [MatchByte(out, offset)], offset, length - 1)
  {
  }

  /** A match appends the same to both. */
  lemma {:induction false} AgreeCopy(a: seq<byte>, b: seq<byte>, offset: nat, length: nat) returns (x: seq<byte>)
    requires Agree(a, b) && offset < WINDOW
    ensures |x| == length && CopyMatch(a, offset, length) == a + x && CopyMatch(b, offset, length) == b + x
    decreases length
  {
    hide Agree, MatchByte, CopyMatch;
    CopyStep(a, offset, length);
    CopyStep(b, offset, length);
    if length == 0 {
      x := [];
      assert a + x == a && b + x == b;
    } else {
      AgreeByte(a, b, offset);
      var c := [MatchByte(a, offset)];
      AgreeAppend(a, b, c);
      var y := AgreeCopy(a + c, b + c, offset, length - 1);
      x := c + y;
      Appended(a, c, y);
      Appended(b, c, y);
    }
  }

  /** The rest of a block, given what both histories have become. */
  ghost predicate SameRest(a: seq<byte>, b: seq<byte>, block: seq<byte>, room: int, ip: nat, x: Option<seq<byte>>)
    requires ip <= |block|
  {
    && Decode(block, |a| + room, ip, a) == (if x.Some? then Some(a + x.value) else None)
    && Decode(block, |b| + room, ip, b) == (if x.Some? then Some(b + x.value) else None)
  }

  lemma {:induction false} AgreeDecode(a: seq<byte>, b: seq<byte>, block: seq<byte>, room: int, ip: nat) returns (x: Option<seq<byte>>)
    requires Agree(a, b) && ip <= |block|
    ensures SameRest(a, b, block, room, ip, x)
    decreases |block| - ip
  {
    hide ReadRun, ReadMatch, CopyMatch, Agree, Decode;
    x := None;
    if ip == |block| {
      AtEnd(block, |a| + room, a);
      AtEnd(block, |b| + room, b);
      return;
    }
    var run := ReadRun(block, ip);
    if run.None? {
      NoRun(block, |a| + room, ip, a);
      NoRun(block, |b| + room, ip, b);
      return;
    }
    var (literals, mid) := run.value;
    if mid == |block| {
      LastRun(block, |a| + room, ip, a);
      LastRun(block, |b| + room, ip, b);
      x := if |literals| <= room then Some(literals) else None;
      return;
    }
    var m := ReadMatch(block, block[ip] % 16, mid);
    if m.None? {
      NoMatch(block, |a| + room, ip, a);
      NoMatch(block, |b| + room, ip, b);
      return;
    }
    var (offset, length, next) := m.value;
    x := AgreeSequence(a, b, block, room, ip, literals, mid, offset, length, next);
  }

  lemma {:induction false} AgreeSequence(a: seq<byte>, b: seq<byte>, block: seq<byte>, room: int, ip: nat,
                                         literals: seq<byte>, mid: nat, offset: nat, length: nat, next: nat)
    returns (x: Option<seq<byte>>)
    requires Agree(a, b) && ip < mid < |block| && ReadRun(block, ip) == Some((literals, mid))
    requires ReadMatch(block, block[ip] % 16, mid) == Some((offset, length, next))
    ensures SameRest(a, b, block, room, ip, x)
    decreases |block| - ip, 0
  {
    hide ReadRun, ReadMatch, CopyMatch, Agree, Decode;
    var c, d := a + literals, b + literals;
    OneSequence(block, |a| + room, ip, a);
    OneSequence(block, |b| + room, ip, b);
    AgreeAppend(a, b, literals);
    AgreeByte(c, d, offset);
    if offset <= |c| && |literals| <= room - MFLIMIT && |literals| + length <= room - LASTLITERALS
       && mid <= |block| - 8 && next <= |block| - LASTLITERALS {
      var y := AgreeCopy(c, d, offset, length);
      AgreeAppend(c, d, y);
      var z := AgreeDecode(c + y, d + y, block, room - |literals| - length, next);
      x := if z.Some? then Some(literals + y + z.value) else None;
      if z.Some? {
        Joined(a, literals, y, z.value);
        Joined(b, literals, y, z.value);
      }
    } else {
      x := None;
    }
  }

  lemma Joined(a: seq<byte>, x: seq<byte>, y: seq<byte>, z: seq<byte>)
    ensures a + x + y + z == a + (x + y + z)
  {
  }

  lemma AtEnd(block: seq<byte>, capacity: int, out: seq<byte>)
    ensures Decode(block, capacity, |block|, out).None?
  {
  }

  lemma NoRun(block: seq<byte>, capacity: int, ip: nat, out: seq<byte>)
    requires ip < |block| && ReadRun(block, ip).None?
    ensures Decode(block, capacity, ip, out).None?
  {
    hide ReadRun;
  }

  lemma LastRun(block: seq<byte>, capacity: int, ip: nat, out: seq<byte>)
    requires ip < |block| && ReadRun(block, ip).Some? && ReadRun(block, ip).value.1 == |block|
    ensures var literals := ReadRun(block, ip).value.0;
            Decode(block, capacity, ip, out) == if |out| + |literals| <= capacity then Some(out + literals) else None
  {
    hide ReadRun;
  }

  lemma NoMatch(block: seq<byte>, capacity: int, ip: nat, out: seq<byte>)
    requires ip < |block| && ReadRun(block, ip).Some? && ReadRun(block, ip).value.1 < |block|
    requires ReadMatch(block, block[ip] % 16, ReadRun(block, ip).value.1).None?
    ensures Decode(block, capacity, ip, out).None?
  {
    hide ReadRun, ReadMatch;
  }

  lemma OneSequence(block: seq<byte>, capacity: int, ip: nat, out: seq<byte>)
    requires ip < |block| && ReadRun(block, ip).Some? && ReadRun(block, ip).value.1 < |block|
    requires ReadMatch(block, block[ip] % 16, ReadRun(block, ip).value.1).Some?
    ensures var (literals, mid) := ReadRun(block, ip).value;
            var (offset, length, next) := ReadMatch(block, block[ip] % 16, mid).value;
            Decode(block, capacity, ip, out) ==
            if offset <= |out| + |literals| && |out| + |literals| <= capacity - MFLIMIT
               && |out| + |literals| + length <= capacity - LASTLITERALS && mid <= |block| - 8 && next <= |block| - LASTLITERALS
            then Decode(block, capacity, next, CopyMatch(out + literals, offset, length)) else None
  {
    hide ReadRun, ReadMatch, CopyMatch;
  }

  /** A history may be replaced by any that has the same last 64 KB. */
  lemma WindowIsEnough(a: seq<byte>, b: seq<byte>, block: seq<byte>, capacity: int)
    requires Agree(a, b)
    ensures DecodeWith(a, block, capacity) == DecodeWith(b, block, capacity)
  {
    hide Decode, Agree;
    var x := AgreeDecode(a, b, block, capacity, 0);
    if x.Some? {
      assert (a + x.value)[|a|..] == x.value && (b + x.value)[|b|..] == x.value;
    }
  }

  // ---------------------------------------------------------------------------------------------
  // Histories that are moved about
  // ---------------------------------------------------------------------------------------------

  /** `data` is put over what was there. */
  function Splice(s: seq<byte>, at: nat, data: seq<byte>): (r: seq<byte>)
    requires at + |data| <= |s|
    ensures |r| == |s| && r[..at] == s[..at] && r[at..at + |data|] == data && r[at + |data|..] == s[at + |data|..]
  {
    s[..at] + data + s[at + |data|..]
  }

  /** What was spliced, up to its end. */
  lemma SplicePrefix(s: seq<byte>, at: nat, data: seq<byte>)
    requires at + |data| <= |s|
    ensures Splice(s, at, data)[..at + |data|] == s[..at] + data
  {
  }

  ghost predicate EndsWith(s: seq<byte>, x: seq<byte>) {
    |x| <= |s| && s[|s| - |x|..] == x
  }

  lemma EndsWithMore(s: seq<byte>, x: seq<byte>, data: seq<byte>)
    requires EndsWith(s, x)
    ensures EndsWith(s + data, x + data)
  {
    assert s + data == s[..|s| - |x|] + (x + data);
  }

  /** The end of a history that is 64 KB long or longer is as good as the history. */
  lemma RecentAgrees(past: seq<byte>, x: seq<byte>)
    requires EndsWith(past, x) && |x| >= WINDOW
    ensures Agree(x, past)
  {
    assert past[|past| - WINDOW..] == past[|past| - |x|..][|x| - WINDOW..];
  }

  lemma TailAgrees(a: seq<byte>, b: seq<byte>, n: nat)
    requires Agree(a, b) && n <= |a| && (n >= WINDOW || n == |a|)
    ensures Agree(a[|a| - n..], b)
  {
    var x := a[|a| - n..];
    if n == |a| {
      assert x == a;
    } else {
      assert x[|x| - WINDOW..] == a[|a| - WINDOW..];
    }
  }

  /** As much of a history as makes 64 KB together with what follows it, or all of it. */
  lemma KeepAgrees(a: seq<byte>, past: seq<byte>, data: seq<byte>, keep: nat)
    requires Agree(a, past) && keep <= |a| && (keep + |data| >= WINDOW || keep == |a|)
    ensures Agree(a[|a| - keep..] + data, past + data)
  {
    AgreeAppend(a, past, data);
    var c := a + data;
    assert c[|c| - (keep + |data|)..] == a[|a| - keep..] + data;
    hide Agree;
    TailAgrees(c, past + data, keep + |data|);
  }

  /** The end of either of two histories that agree, as far as 64 KB back. */
  lemma AgreeEnd(a: seq<byte>, b: seq<byte>, n: nat)
    requires Agree(a, b) && n <= |b| && n <= WINDOW
    ensures n <= |a| && a[|a| - n..] == b[|b| - n..]
  {
    if a != b {
      assert a[|a| - n..] == a[|a| - WINDOW..][WINDOW - n..];
      assert b[|b| - n..] == b[|b| - WINDOW..][WINDOW - n..];
    }
  }

  /** How much is put in front of a block of that size to make a dictionary of it. */
  function InFront(size: nat, space: nat): (n: nat)
    ensures n <= space && (size < WINDOW ==> n <= WINDOW - size) && (size >= WINDOW ==> n == 0)
    ensures size < WINDOW ==> n == space || n == WINDOW - size
  {
    var n := if size > WINDOW then 0 else WINDOW - size;
    if n > space then space else n
  }

  /** There is space in front of a block for 64 KB of what came before it, or exactly as much as came. */
  ghost predicate Spacious(space: nat, earlier: seq<byte>) {
    if |earlier| < WINDOW then space == |earlier| else space >= WINDOW
  }

  /** The end of what came before a block, found in a dictionary that already holds a part of the block. */
  lemma FrontFound(bytes: seq<byte>, earlier: seq<byte>, block: seq<byte>, start: nat, space: nat)
    requires start <= |block| && Agree(bytes, earlier + block[..start]) && Spacious(space, earlier)
    ensures var n := InFront(|block|, space);
            n <= |earlier| && (n > 0 ==> n + start <= |bytes| && bytes[|bytes| - start - n..|bytes| - start] == earlier[|earlier| - n..])
  {
    var n := InFront(|block|, space);
    if n > 0 {
      var past := earlier + block[..start];
      AgreeEnd(bytes, past, n + start);
      var x := bytes[|bytes| - (n + start)..];
      assert x[..n] == bytes[|bytes| - start - n..|bytes| - start];
      assert past[|past| - (n + start)..][..n] == earlier[|earlier| - n..];
    }
  }

  /** With that much in front of it the block makes a dictionary for what comes after it. */
  lemma FrontAgrees(front: seq<byte>, earlier: seq<byte>, block: seq<byte>, space: nat)
    requires Spacious(space, earlier) && |front| == space
    requires var n := InFront(|block|, space); n <= |earlier| && front[space - n..] == earlier[|earlier| - n..]
    ensures Agree(front + block, earlier + block)
  {
    hide Agree, InFront;
    var n := InFront(|block|, space);
    if n + |block| < WINDOW {
      assert front[0..] == front && earlier[0..] == earlier;
      Itself(front + block);
    } else {
      EndOfJoin(front, block, n);
      EndOfJoin(earlier, block, n);
      SameEnd(front + block, earlier + block, n + |block|);
    }
  }

  lemma Itself(a: seq<byte>)
    ensures Agree(a, a)
  {
  }

  lemma EndOfJoin(a: seq<byte>, block: seq<byte>, n: nat)
    requires n <= |a|
    ensures (a + block)[|a + block| - (n + |block|)..] == a[|a| - n..] + block
  {
  }

  lemma SameEnd(a: seq<byte>, b: seq<byte>, n: nat)
    requires WINDOW <= n <= |a| && n <= |b| && a[|a| - n..] == b[|b| - n..]
    ensures Agree(a, b)
  {
    assert a[|a| - WINDOW..] == a[|a| - n..][n - WINDOW..];
    assert b[|b| - WINDOW..] == b[|b| - n..][n - WINDOW..];
  }

  // ---------------------------------------------------------------------------------------------
  // The dictionary of the frame decoder
  // ---------------------------------------------------------------------------------------------

  /** Where the dictionary is: at the start of the decoder's own buffer, or in memory of the caller's that keeps its contents. */
  datatype Dict = InTmp(size: nat) | Outside(addr: nat, bytes: seq<byte>)

  function DictBytes(tmp: seq<byte>, dict: Dict): (r: seq<byte>) {
    match dict
    case InTmp(n) => if n <= |tmp| then tmp[..n] else tmp
    case Outside(_, bytes) => bytes
  }

  /** The dictionary is as good as all that was produced. */
  ghost predicate Holds(tmp: seq<byte>, dict: Dict, past: seq<byte>) {
    && (dict.InTmp? ==> dict.size <= |tmp|) && Agree(DictBytes(tmp, dict), past)
    && (dict.Outside? ==> |dict.bytes| <= |past|)
  }

  /**
    A block lies in the decoder's buffer at `at`, and `start` bytes of it have been given to the caller. When all of it has been
    given the dictionary will be good again.
   */
  ghost predicate Flushing(tmp: seq<byte>, dict: Dict, at: nat, block: seq<byte>, start: nat, earlier: seq<byte>) {
    && at + |block| <= |tmp| && tmp[at..at + |block|] == block && start <= |block| && Spacious(at, earlier)
    && match dict
       case InTmp(n) => n == at + start && Agree(tmp[..at + |block|], earlier + block)
       case Outside(_, bytes) => Agree(bytes, earlier + block[..start]) && |bytes| <= |earlier| + start
  }

  lemma FlushedHolds(tmp: seq<byte>, dict: Dict, at: nat, block: seq<byte>, earlier: seq<byte>)
    requires Flushing(tmp, dict, at, block, |block|, earlier)
    ensures Holds(tmp, dict, earlier + block)
  {
    assert block[..|block|] == block;
  }

  /** The lengths of histories that agree. */
  lemma AgreeSize(a: seq<byte>, b: seq<byte>)
    requires Agree(a, b)
    ensures |a| < WINDOW || |b| < WINDOW ==> a == b
  {
  }

  /** Only a dictionary outside the decoder's buffer gets long. */
  lemma LongDict(tmp: seq<byte>, dict: Dict, past: seq<byte>)
    requires Holds(tmp, dict, past) && |DictBytes(tmp, dict)| > |tmp|
    ensures |past| >= |DictBytes(tmp, dict)|
  {
  }

  /** An empty dictionary means that nothing was produced. */
  lemma NothingBefore(tmp: seq<byte>, dict: Dict, at: nat, block: seq<byte>, start: nat, earlier: seq<byte>)
    requires Flushing(tmp, dict, at, block, start, earlier) && dict == InTmp(0)
    ensures earlier + block[..start] == [] && Holds(tmp, dict, [])
  {
  }

  /** The last 64 KB of a dictionary in the decoder's buffer go to its start. */
  lemma CutHolds(tmp: seq<byte>, size: nat, past: seq<byte>)
    requires WINDOW <= size <= |tmp| && Holds(tmp, InTmp(size), past)
    ensures Holds(Splice(tmp, 0, tmp[size - WINDOW..size]), InTmp(WINDOW), past)
  {
    hide Agree;
    var last := tmp[size - WINDOW..size];
    assert tmp[..size][size - WINDOW..] == last;
    TailAgrees(tmp[..size], past, WINDOW);
    SplicePrefix(tmp, 0, last);
    assert tmp[..0] + last == last;
  }

  /** The end of a dictionary elsewhere, 64 KB or all of it, goes to the start of the decoder's buffer. */
  lemma SavedHolds(tmp: seq<byte>, addr: nat, bytes: seq<byte>, past: seq<byte>, size: nat)
    requires Holds(tmp, Outside(addr, bytes), past) && size <= |bytes| && size <= |tmp| && (size == WINDOW || size == |bytes|)
    ensures Holds(Splice(tmp, 0, bytes[|bytes| - size..]), InTmp(size), past)
  {
    hide Agree;
    var last := bytes[|bytes| - size..];
    TailAgrees(bytes, past, size);
    SplicePrefix(tmp, 0, last);
    assert tmp[..0] + last == last;
  }

  /** The space in front of a block is filled from a dictionary elsewhere. */
  function Filled(tmp: seq<byte>, bytes: seq<byte>, at: nat, size: nat, start: nat): (r: seq<byte>)
    requires at + size <= |tmp| && (InFront(size, at) > 0 ==> InFront(size, at) + start <= |bytes|)
    ensures |r| == |tmp|
  {
    var n := InFront(size, at);
    if n > 0 then Splice(tmp, at - n, bytes[|bytes| - start - n..|bytes| - start]) else tmp
  }

  lemma FilledFlushing(tmp: seq<byte>, addr: nat, bytes: seq<byte>, at: nat, block: seq<byte>, start: nat, earlier: seq<byte>)
    requires Flushing(tmp, Outside(addr, bytes), at, block, start, earlier)
    ensures InFront(|block|, at) > 0 ==> InFront(|block|, at) + start <= |bytes|
    ensures Flushing(Filled(tmp, bytes, at, |block|, start), InTmp(at + start), at, block, start, earlier)
  {
    hide Agree, InFront, Spacious;
    var n := InFront(|block|, at);
    FrontFound(bytes, earlier, block, start, at);
    var r := Filled(tmp, bytes, at, |block|, start);
    assert r[at..] == tmp[at..];
    assert r[at..at + |block|] == r[at..][..|block|] == tmp[at..][..|block|] == block;
    assert r[..at][at - n..] == earlier[|earlier| - n..];
    FrontAgrees(r[..at], earlier, block, at);
    assert r[..at + |block|] == r[..at] + block;
  }

  /** More of the block is given to the caller. */
  lemma FlushingMore(tmp: seq<byte>, at: nat, block: seq<byte>, start: nat, more: nat, earlier: seq<byte>)
    requires Flushing(tmp, InTmp(at + start), at, block, start, earlier) && start <= more <= |block|
    ensures Flushing(tmp, InTmp(at + more), at, block, more, earlier)
  {
    hide Agree, Spacious;
  }

  /** The dictionary elsewhere follows what is given to the caller. */
  lemma FlushingElsewhere(tmp: seq<byte>, dict: Dict, at: nat, block: seq<byte>, start: nat, more: nat, earlier: seq<byte>, next: Dict)
    requires Flushing(tmp, dict, at, block, start, earlier) && start <= more <= |block| && next.Outside?
    requires Holds(tmp, next, earlier + block[..start] + block[start..more])
    ensures Flushing(tmp, next, at, block, more, earlier)
  {
    hide Agree, Spacious;
    assert earlier + block[..start] + block[start..more] == earlier + block[..more];
  }

  lemma FlushingHolds(tmp: seq<byte>, dict: Dict, at: nat, block: seq<byte>, start: nat, earlier: seq<byte>)
    requires Flushing(tmp, dict, at, block, start, earlier) && (dict.Outside? || dict.size == 0)
    ensures Holds(tmp, dict, earlier + block[..start])
  {
    if dict.InTmp? { NothingBefore(tmp, dict, at, block, start, earlier); }
    hide Agree, Spacious;
  }

  lemma FlushingSize(tmp: seq<byte>, dict: Dict, at: nat, block: seq<byte>, start: nat, earlier: seq<byte>)
    requires Flushing(tmp, dict, at, block, start, earlier) && dict.InTmp?
    ensures dict.size == at + start
  {
  }

  lemma FlushingBlock(tmp: seq<byte>, dict: Dict, at: nat, block: seq<byte>, start: nat, earlier: seq<byte>)
    requires Flushing(tmp, dict, at, block, start, earlier)
    ensures at + |block| <= |tmp| && tmp[at..at + |block|] == block
  {
  }

  lemma NothingHolds(tmp: seq<byte>)
    ensures Holds(tmp, InTmp(0), [])
  {
  }

  /** A dictionary is all of a short history, or 64 KB long or longer. */
  lemma HoldsSize(tmp: seq<byte>, dict: Dict, past: seq<byte>)
    requires Holds(tmp, dict, past)
    ensures var n := if dict.InTmp? then dict.size else |dict.bytes|; if |past| < WINDOW then n == |past| else n >= WINDOW
    ensures dict.InTmp? ==> dict.size <= |tmp|
  {
    AgreeSize(DictBytes(tmp, dict), past);
    hide Agree;
  }
}
