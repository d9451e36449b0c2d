/**
  The buffer behind the writer of writer.h: how its capacity grows, how much of it is reserved for each event, and for which
  values everything that is put unchecked stays within what was reserved.
 */
module JsonBuffer {
  import opened Wrappers
  import opened Numbers
  import opened JsonSyntax
  import opened JsonDom
  import opened JsonPrint

  const INITIAL_CAPACITY := 256

  /** The capacity of a buffer after room for `count` more characters was reserved behind `size` of them. */
  function Reserved(capacity: nat, size: nat, count: nat): (r: nat)
    requires size <= capacity
    ensures r >= capacity && r >= size + count
  {
    if count <= capacity - size then capacity
    else
      var grown := if capacity == 0 then INITIAL_CAPACITY else capacity + (capacity + 1) / 2;
      if grown < size + count then size + count else grown
  }

  /** A fresh buffer begins with 256 characters and grows by a half, or to what is needed if that is more. */
  lemma BufferGrows()
    ensures Reserved(0, 0, 1) == 256 && Reserved(0, 0, 300) == 300
    ensures Reserved(256, 255, 1) == 256 && Reserved(256, 256, 1) == 384 && Reserved(257, 257, 1) == 386 && Reserved(256, 256, 200) == 456
  {
  }

  /** How much room WriteString reserves for a string of n characters, computed in 32 bits. */
  function Reservation(n: nat): (r: nat) {
    (2 + n * 6) % TWO32
  }

  /** The text of the string fits behind what is in the buffer, once room for it was reserved. */
  predicate Fits(capacity: nat, size: nat, str: Text)
    requires size <= capacity
  {
    size + |Quoted(str)| <= Reserved(capacity, size, Reservation(|str|))
  }

  /** A string that fits into any buffer whatever it holds: two characters and six for each of its own fit 32 bits. */
  predicate Writable(str: Text) {
    6 * |str| + 2 < TWO32
  }

  function Zeros(n: nat): (r: Text)
    ensures |r| == n
  {
    seq(n, _ => 0)
  }

  /** NULs take the most room: six characters each. */
  lemma {:induction false} ZerosEscaped(n: nat, k: nat)
    requires k <= n
    ensures |EscapedFrom(Zeros(n), k)| == 6 * (n - k)
    decreases n - k
  {
    if k < n { ZerosEscaped(n, k + 1); }
  }

  /** A string whose reservation does not wrap around fits into any buffer. */
  lemma WritableFits(capacity: nat, size: nat, str: Text)
    requires size <= capacity && Writable(str)
    ensures Fits(capacity, size, str)
  {
  }

  /** A fresh buffer holds every string of n characters if and only if the reservation does not wrap around. */
  lemma ReservationExact(n: nat)
    ensures (forall str: Text | |str| == n :: Fits(0, 0, str)) <==> 6 * n + 2 < TWO32
  {
    if 6 * n + 2 < TWO32 {
      forall str: Text | |str| == n ensures Fits(0, 0, str) { WritableFits(0, 0, str); }
    } else {
      ZerosEscaped(n, 0);
      assert !Fits(0, 0, Zeros(n));
    }
  }

  /** From this length on a string may be written past the end of a fresh buffer: four characters are reserved for it. */
  lemma ReservationWraps()
    ensures Reservation(715827882) == 4294967294 && Reservation(715827883) == 4
    ensures !Fits(0, 0, Zeros(715827883))
  {
    ZerosEscaped(715827883, 0);
  }

  lemma {:induction false} PlainEscaped(n: nat, k: nat)
    requires k <= n
    ensures |EscapedFrom(seq(n, _ => 'a' as int), k)| == n - k
    decreases n - k
  {
    if k < n { PlainEscaped(n, k + 1); }
  }

  /** 1200000000 plain characters fit a fresh buffer although their reservation wraps around. */
  lemma LongStringFits(str: Text)
    requires str == seq(1_200_000_000, _ => 'a' as int)
    ensures !Writable(str) && Fits(0, 0, str)
  {
    PlainEscaped(1_200_000_000, 0);
  }

  // ---------------------------------------------------------------------------------------------
  // A whole value
  // ---------------------------------------------------------------------------------------------

  /** How much of a buffer is in use and how much there is. */
  datatype Extent = Extent(size: nat, capacity: nat)

  type Room = r: Extent | r.size <= r.capacity witness Extent(0, 0)

  /** Room for `count` characters is reserved and n of them are put. */
  function Take(b: Room, count: nat, n: nat): (r: Room)
    requires n <= count
  {
    Extent(b.size + n, Reserved(b.capacity, b.size, count))
  }

  /** The separator before a value, if there is one. */
  function Separated(b: Room, sep: bool): (r: Room) {
    if sep then Take(b, 1, 1) else b
  }

  function StringTaken(str: Text, b: Room): (r: Option<Room>) {
    if Fits(b.capacity, b.size, str) then Some(Extent(b.size + |Quoted(str)|, Reserved(b.capacity, b.size, Reservation(|str|)))) else None
  }

  /** How much room is reserved for an integer, by the event that carries it. */
  function IntegerRoom(e: Event): (n: nat) {
    match e
    case Int(_) => 11
    case Uint(_) => 10
    case Int64(_) => 21
    case _ => 20
  }

  function NumberTaken(n: Number, b: Room): (r: Option<Room>) {
    if n.bits < TWO64 && |PrintInteger(IntegerOf(n))| <= IntegerRoom(NumberEvent(n))
    then Some(Take(b, IntegerRoom(NumberEvent(n)), |PrintInteger(IntegerOf(n))|)) else None
  }

  /** The buffer after a value was written, or nothing if a string in it, or anything else, does not fit what is reserved for it. */
  function Taken(v: Value, sep: bool, b: Room): (r: Option<Room>)
    decreases v, 0
  {
    var c := Separated(b, sep);
    match v
    case NullValue => Some(Take(c, 4, 4))
    case BoolValue(b) => Some(if b then Take(c, 4, 4) else Take(c, 5, 5))
    case NumberValue(n) => NumberTaken(n, c)
    case StringValue(str) => StringTaken(str, c)
    case ArrayValue(elements) => Closed(ElementsTaken(elements, 0, Take(c, 1, 1)))
    case ObjectValue(members) => Closed(MembersTaken(members, 0, Take(c, 1, 1)))
  }

  /** The closing bracket. */
  function Closed(b: Option<Room>): (r: Option<Room>) {
    if b.Some? then Some(Take(b.value, 1, 1)) else None
  }

  function ElementsTaken(elements: seq<Value>, k: nat, b: Room): (r: Option<Room>)
    requires k <= |elements|
    decreases elements, |elements| - k
  {
    if k == |elements| then Some(b)
    else
      var c := Taken(elements[k], k > 0, b);
      if c.None? then None else ElementsTaken(elements, k + 1, c.value)
  }

  function MembersTaken(members: seq<Member>, k: nat, b: Room): (r: Option<Room>)
    requires k <= |members|
    decreases members, |members| - k
  {
    if k == |members| then Some(b)
    else
      var c := StringTaken(members[k].name, Separated(b, k > 0));
      if c.None? then None
      else
        var d := Taken(members[k].value, true, c.value);
        if d.None? then None else MembersTaken(members, k + 1, d.value)
  }

  /** Everything in the value fits the buffer of a fresh writer at the moment at which it is written. */
  predicate Storable(v: Value) {
    Taken(v, false, Extent(0, 0)).Some?
  }

  // ---------------------------------------------------------------------------------------------
  // Values that fit any buffer
  // ---------------------------------------------------------------------------------------------

  /** No string is so long that its reservation wraps around. */
  ghost predicate AllWritable(v: Value) {
    match v
    case StringValue(str) => Writable(str)
    case ArrayValue(elements) => forall e | e in elements :: AllWritable(e)
    case ObjectValue(members) => forall m | m in members :: Writable(m.name) && AllWritable(m.value)
    case _ => true
  }

  lemma {:induction false} DecimalLength(n: nat, k: nat)
    requires k > 0 && n < PowerOfTen(k)
    ensures |Decimal(n)| <= k
    decreases k
  {
    if n >= 10 { DecimalLength(n / 10, k - 1); }
  }

  /** What is reserved for an integer is enough, in all four events. */
  lemma IntegerFits(v: int, b: Room)
    requires -TWO63 <= v < TWO64
    ensures NumberTaken(JsonDom.Integer(v), b).Some?
  {
    NumberEventValue(v);
    IntegerOfInteger(v);
    hide PrintInteger, NumberEvent, IntegerOf;
    IntegerLength(v);
  }

  /** Three of the reservations are as small as they can be, and the one for 64 bits with a sign is one larger. */
  lemma IntegerRooms()
    ensures |PrintInteger(-2147483648)| == IntegerRoom(Int(0)) && |PrintInteger(4294967295)| == IntegerRoom(Uint(0))
    ensures |PrintInteger(-9223372036854775808)| + 1 == IntegerRoom(Int64(0)) && |PrintInteger(18446744073709551615)| == IntegerRoom(Uint64(0))
  {
    assert PowerOfTen(9) == 1_000_000_000 && PowerOfTen(18) == 1_000_000_000_000_000_000;
    assert PowerOfTen(19) == 10_000_000_000_000_000_000;
    LongDecimal(2147483648, 9);
    LongDecimal(4294967295, 9);
    LongDecimal(9223372036854775808, 18);
    LongDecimal(18446744073709551615, 19);
  }

  lemma {:induction false} LongDecimal(n: nat, k: nat)
    requires PowerOfTen(k) <= n < PowerOfTen(k + 1)
    ensures |Decimal(n)| == k + 1
    decreases k
  {
    if k > 0 { LongDecimal(n / 10, k - 1); }
  }

  lemma IntegerLength(v: int)
    requires -TWO63 <= v < TWO64
    ensures |PrintInteger(v)| <= (if IsInt32(v) then 11 else if IsUint32(v) then 10 else if v < TWO63 then 21 else 20)
  {
    hide Decimal;
    assert PowerOfTen(10) == 10_000_000_000 && PowerOfTen(20) == 100_000_000_000_000_000_000;
    var n := if v < 0 then -v else v;
    DecimalLength(n, if n < 10_000_000_000 then 10 else 20);
  }

  lemma {:induction false} WritableTaken(v: Value, sep: bool, b: Room)
    requires JsonDom.Valid(v) && AllWritable(v)
    ensures Taken(v, sep, b).Some?
    decreases v, 0
  {
    hide NumberTaken, PrintInteger, Quoted, Fits;
    var c := Separated(b, sep);
    match v
    case NumberValue(n) =>
      var i: int :| -TWO63 <= i < TWO64 && n == JsonDom.Integer(i);
      IntegerFits(i, c);
    case StringValue(str) => WritableFits(c.capacity, c.size, str);
    case ArrayValue(elements) => ElementsWritable(elements, 0, Take(c, 1, 1));
    case ObjectValue(members) => MembersWritable(members, 0, Take(c, 1, 1));
    case _ =>
  }

  lemma {:induction false} ElementsWritable(elements: seq<Value>, k: nat, b: Room)
    requires k <= |elements| && forall e | e in elements :: JsonDom.Valid(e) && AllWritable(e)
    ensures ElementsTaken(elements, k, b).Some?
    decreases elements, |elements| - k
  {
    if k < |elements| {
      WritableTaken(elements[k], k > 0, b);
      ElementsWritable(elements, k + 1, Taken(elements[k], k > 0, b).value);
    }
  }

  lemma {:induction false} MembersWritable(members: seq<Member>, k: nat, b: Room)
    requires k <= |members| && forall m | m in members :: Writable(m.name) && JsonDom.Valid(m.value) && AllWritable(m.value)
    ensures MembersTaken(members, k, b).Some?
    decreases members, |members| - k
  {
    hide Fits;
    if k < |members| {
      var c := Separated(b, k > 0);
      WritableFits(c.capacity, c.size, members[k].name);
      var d := StringTaken(members[k].name, c).value;
      WritableTaken(members[k].value, true, d);
      MembersWritable(members, k + 1, Taken(members[k].value, true, d).value);
    }
  }

  /** A value whose strings are short enough is stored without overrun. */
  lemma WritableStorable(v: Value)
    requires JsonDom.Valid(v) && AllWritable(v)
    ensures Storable(v)
  {
    WritableTaken(v, false, Extent(0, 0));
  }
}
