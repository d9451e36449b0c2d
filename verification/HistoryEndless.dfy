/**
  The one length of a history at which the paging loop of history_cache.cpp need not end: with 2^32 - 1 transactions every
  position that the loop can reach is below their count.
 */
module HistoryEndless {
  import opened Wrappers
  import opened Sequences
  import opened JsonSyntax
  import opened JsonDom
  import opened JsonBuffer
  import opened HistoryList
  import opened HistoryCache

  const LONGEST := TWO32 - 1

  /** A reply to the request that the loop makes: none, or the page at its position. */
  ghost predicate Serves(l: Loop, history: seq<Value>, reply: Reply) {
    reply.NoReply? || (l.begin <= |history| && reply == Transactions(Page(history, l.begin)))
  }

  ghost predicate AllServe(s: Store, history: seq<Value>, replies: seq<Reply>) {
    forall k | 0 <= k < |replies| :: Serves(Paged(s, |history|, replies[..k]), history, replies[k])
  }

  /** Positions stay even, and the list holds what has arrived. */
  ghost predicate Turning(s: Store, history: seq<Value>, l: Loop, covered: nat) {
    && covered <= |history| && l.store.ids == Listing(s.ids, Ids(history), 0, covered)
    && l.begin < TWO32 && l.begin % 2 == 0 && (covered == l.begin || covered == |history|)
  }

  /** A list that stays short never ends the loop. */
  lemma TurningGoesOn(s: Store, history: seq<Value>, l: Loop, covered: nat)
    requires |history| == LONGEST && Turning(s, history, l, covered)
    requires |Listing(s.ids, Ids(history), 0, |history|)| < |history|
    ensures GoesOn(l, |history|)
  {
    hide Listing, Ids;
    var all := Ids(history);
    ListingGrows(s.ids, all, covered, |all|);
    EvenIsBelow(l.begin);
  }

  /** The largest 32-bit number is odd. */
  lemma EvenIsBelow(n: nat)
    requires n < TWO32 && n % 2 == 0
    ensures n < LONGEST
  {
  }

  /** A page keeps it so. */
  lemma TurningKeeps(s: Store, history: seq<Value>, addrs: set<Text>, l: Loop, covered: nat) returns (more: nat)
    requires IsHistory(history, addrs) && |history| == LONGEST && Turning(s, history, l, covered) && GoesOn(l, |history|)
    ensures Turning(s, history, Turn(l, |history|, Transactions(Page(history, l.begin))), more)
  {
    hide Listing, IsHistory, Ids;
    var all, page := Ids(history), Page(history, l.begin);
    var end := l.begin + |page|;
    PageListed(l.store, history, addrs, l.begin, |page|);
    if covered == |history| {
      NothingNew(s.ids, all, l.begin, end);
      more := covered;
    } else {
      ListingJoin(s.ids, all, 0, l.begin, end);
      more := end;
    }
    hide AbsorbAll;
  }

  lemma {:induction false} KeepsTurning(s: Store, history: seq<Value>, addrs: set<Text>, replies: seq<Reply>) returns (covered: nat)
    requires IsHistory(history, addrs) && |history| == LONGEST && |Listing(s.ids, Ids(history), 0, |history|)| < |history|
    requires AllServe(s, history, replies)
    ensures Turning(s, history, Paged(s, |history|, replies), covered)
    decreases |replies|
  {
    hide Listing, IsHistory, Ids, Turn;
    if replies == [] {
      NothingArrived(s.ids, Ids(history));
      covered := 0;
    } else {
      var n := |replies| - 1;
      var init := replies[..n];
      assert forall k | 0 <= k < n :: init[..k] == replies[..k] && init[k] == replies[k];
      covered := KeepsTurning(s, history, addrs, init);
      var l := Paged(s, |history|, init);
      TurningGoesOn(s, history, l, covered);
      assert Serves(l, history, replies[n]);
      if replies[n].NoReply? {
        NoReplyNoTurn(l, |history|);
      } else {
        covered := TurningKeeps(s, history, addrs, l, covered);
      }
    }
  }

  lemma NoReplyNoTurn(l: Loop, count: nat)
    ensures Turn(l, count, NoReply) == l
  {
  }

  /**
    In a history of 2^32 - 1 transactions of which one is shadowed, the loop goes on after any number of replies, whatever
    failures are among them.
   */
  lemma Endless(s: Store, history: seq<Value>, addrs: set<Text>, replies: seq<Reply>)
    requires IsHistory(history, addrs) && |history| == LONGEST && AllServe(s, history, replies)
    requires s.ids == [] && !Clear([], Ids(history))
    ensures GoesOn(Paged(s, |history|, replies), |history|)
  {
    hide IsHistory, Clear, Ids, AllServe, Turning;
    HistoryIds(history, addrs);
    ListingDistinct(Ids(history), |history|);
    ShortIsShadowed([], Ids(history));
    var covered := KeepsTurning(s, history, addrs, replies);
    TurningGoesOn(s, history, Paged(s, |history|, replies), covered);
  }

  lemma {:induction false} ListingDistinct(all: seq<Id>, k: nat)
    requires k <= |all|
    ensures NoDuplicates(Listing([], all, 0, k))
  {
    if k > 0 {
      ListingDistinct(all, k - 1);
      var before := Listing([], all, 0, k - 1);
      SameAsItself(all[k - 1], 0);
      hide Listing;
      if !Found(before, all[k - 1]) { SnocNoDuplicates(before, all[k - 1]); }
    }
  }

  // ---------------------------------------------------------------------------------------------
  // Such a history
  // ---------------------------------------------------------------------------------------------

  const BASE := 128

  /** n digits of k, none of which is NUL. */
  function Code(k: nat, n: nat): (t: Text)
    ensures |t| == n && NoNul(t)
  {
    if n == 0 then [] else Code(k / BASE, n - 1) + [k % BASE + 1]
  }

  function Power(n: nat): (r: nat) {
    if n == 0 then 1 else BASE * Power(n - 1)
  }

  lemma {:induction false} CodesDiffer(j: nat, k: nat, n: nat)
    requires j < Power(n) && k < Power(n) && j != k
    ensures Code(j, n) != Code(k, n)
  {
    if n > 0 {
      var a, b := Code(j, n), Code(k, n);
      assert a[..n - 1] == Code(j / BASE, n - 1) && b[..n - 1] == Code(k / BASE, n - 1);
      assert a[n - 1] == j % BASE + 1 && b[n - 1] == k % BASE + 1;
      if j / BASE != k / BASE { CodesDiffer(j / BASE, k / BASE, n - 1); }
    }
  }

  /** The first id is a prefix of all the others. */
  function LongId(k: nat): (t: Id)
    ensures |t| == (if k == 0 then 1 else 6) && NoNul(t)
  {
    if k == 0 then ['a' as int] else ['a' as int] + Code(k, 5)
  }

  function LongTransaction(k: nat): (v: Value) {
    ObjectValue([Member(TRANSACTION, StringValue(LongId(k)))])
  }

  lemma LongIdsDiffer(j: nat, k: nat)
    requires j < k < LONGEST
    ensures LongId(j) != LongId(k)
  {
    hide Code;
    if j > 0 {
      assert Power(5) == 34359738368;
      CodesDiffer(j, k, 5);
      assert LongId(j)[1..] == Code(j, 5) && LongId(k)[1..] == Code(k, 5);
    }
  }

  function LongHistory(): (r: seq<Value>)
    ensures |r| == LONGEST
  {
    seq(LONGEST, k requires 0 <= k < LONGEST => LongTransaction(k))
  }

  lemma LongIdOf(k: nat)
    ensures IdOf(LongTransaction(k)) == Some(LongId(k))
  {
    hide LongId;
  }

  lemma LongIsTransaction(k: nat)
    ensures Transaction(LongTransaction(k), {})
  {
    hide LongId;
    LongIdOf(k);
    hide IdOf;
    var m := Member(TRANSACTION, StringValue(LongId(k)));
    assert Countable(m.name) && JsonDom.Valid(m.value);
    assert Writable(m.name) && AllWritable(m.value);
    WritableStorable(LongTransaction(k));
    hide Storable;
  }

  lemma LongIds()
    ensures |Ids(LongHistory())| == LONGEST && forall k: nat | k < LONGEST :: Ids(LongHistory())[k] == LongId(k)
  {
    hide LongId, LongTransaction;
    forall k: nat | k < LONGEST ensures Ids(LongHistory())[k] == LongId(k) { LongIdOf(k); }
  }

  lemma LongIsHistory()
    ensures IsHistory(LongHistory(), {}) && !Clear([], Ids(LongHistory()))
  {
    var history := LongHistory();
    LongIds();
    hide LongId, LongTransaction, Transaction;
    forall v | v in history ensures Transaction(v, {}) {
      var k :| 0 <= k < |history| && history[k] == v;
      LongIsTransaction(k);
    }
    forall j, k | 0 <= j < k < |history| ensures Ids(history)[j] != Ids(history)[k] { LongIdsDiffer(j, k); }
    LongShadowed();
  }

  lemma LongShadowed()
    ensures !Clear([], Ids(LongHistory()))
  {
    var all := Ids(LongHistory());
    LongIds();
    assert all[0] < all[1] && all[0] in all[..1];
    assert Shadowed([], all, 1);
  }

  /** A history for which the loop never ends, whatever comes before the pages. */
  lemma NeverEnds(db: map<Text, Text>, replies: seq<Reply>)
    requires AllServe(Store([], db), LongHistory(), replies)
    ensures GoesOn(Paged(Store([], db), LONGEST, replies), LONGEST)
  {
    hide LongHistory, AllServe, Paged, GoesOn;
    LongIsHistory();
    Endless(Store([], db), LongHistory(), {}, replies);
  }
}
