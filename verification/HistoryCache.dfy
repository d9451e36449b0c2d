/**
  The cache of transaction histories of history_cache.cpp: for an address, the list of the ids of its transactions, and in
  a database a record for each id and the list as it was last saved. Records and lists are stored as JSON text.
 */
module HistoryCache {
  import opened Wrappers
  import opened HistoryList
  import opened Sequences
  import opened JsonSyntax
  import opened JsonDom
  import JsonGrammar
  import opened JsonPrint
  import opened JsonBuffer

  const PAGE := 10
  const TRANSACTION: Text := ['t' as int, 'r' as int, 'a' as int, 'n' as int, 's' as int, 'a' as int, 'c' as int, 't' as int, 'i' as int, 'o' as int, 'n' as int]

  // ---------------------------------------------------------------------------------------------
  // Transactions and texts
  // ---------------------------------------------------------------------------------------------

  /** The first member with that name. */
  function FindMember(members: seq<Member>, name: Text): (r: Option<Value>) {
    if members == [] then None
    else if members[0].name == name then Some(members[0].value)
    else FindMember(members[1..], name)
  }

  /** It is found if and only if there is one, and it is the first. */
  lemma {:induction false} FirstFound(members: seq<Member>, name: Text, k: nat)
    requires k <= |members| && forall j | 0 <= j < k :: members[j].name != name
    ensures k == |members| ==> FindMember(members, name).None?
    ensures k < |members| && members[k].name == name ==> FindMember(members, name) == Some(members[k].value)
    decreases k
  {
    if k > 0 { FirstFound(members[1..], name, k - 1); }
  }

  /** The id of a transaction: the text in its field `transaction`. */
  function IdOf(v: Value): (r: Option<Id>) {
    if !v.ObjectValue? then None
    else match FindMember(v.members, TRANSACTION)
      case Some(StringValue(str)) => Some(str)
      case _ => None
  }

  /** A transaction with nothing but an id: {"transaction":"..."}. */
  lemma TransactionHasId(id: Id)
    ensures IdOf(ObjectValue([Member([116, 114, 97, 110, 115, 97, 99, 116, 105, 111, 110], StringValue(id))])) == Some(id)
  {
    assert TRANSACTION == [116, 114, 97, 110, 115, 97, 99, 116, 105, 111, 110];
  }

  /** A text that is read as a value. */
  function Load(text: Text, big: TooBig): (r: Option<Value>) {
    match JsonGrammar.Document(text, big)
    case Err(_, _, _) => None
    case Ok(events, _) =>
      var stack := Build([], events);
      if stack.Some? && |stack.value| == 1 then Some(stack.value[0]) else None
  }

  lemma LoadPrint(v: Value, big: TooBig)
    requires JsonDom.Valid(v)
    ensures Load(Print(v), big) == Some(v) && Print(v) != []
  {
    hide JsonGrammar.Document, Build;
    RoundTrip(v, big);
    PrintStarts(v);
    hide Print;
  }

  /** A list of ids as a value. */
  function IdList(ids: seq<Id>): (v: Value) {
    ArrayValue(seq(|ids|, i requires 0 <= i < |ids| => StringValue(ids[i])))
  }

  // ---------------------------------------------------------------------------------------------
  // What the cache holds
  // ---------------------------------------------------------------------------------------------

  /** A transaction that arrives in a page, and whether the database takes it. */
  datatype Arrival = Arrival(item: Value, saved: bool)

  /** It can be stored, and its id is a text without NUL and no address. */
  ghost predicate Proper(a: Arrival, addrs: set<Text>) {
    JsonDom.Valid(a.item) && Storable(a.item) && (IdOf(a.item).Some? ==> NoNul(IdOf(a.item).value) && Writable(IdOf(a.item).value) && IdOf(a.item).value !in addrs)
  }

  /** The key under which a transaction is stored: its id, which the database gets as a text that ends at the first NUL. */
  function KeyOf(id: Id): (key: Text) {
    if id == [] || id[0] == 0 then [] else [id[0]] + KeyOf(id[1..])
  }

  lemma {:induction false} KeyIsId(id: Id)
    requires NoNul(id)
    ensures KeyOf(id) == id
  {
    if id != [] {
      assert forall k | 0 <= k < |id| - 1 :: id[1..][k] == id[k + 1];
      KeyIsId(id[1..]);
      assert id == [id[0]] + id[1..];
    }
  }

  /** What is behind a NUL is not part of the key. */
  lemma {:induction false} KeyEndsAtNul(id: Id, rest: Id)
    requires NoNul(id)
    ensures KeyOf(id + [0] + rest) == id
    decreases |id|
  {
    if id != [] {
      assert (id + [0] + rest)[1..] == id[1..] + [0] + rest && id == [id[0]] + id[1..];
      assert forall k | 0 <= k < |id| - 1 :: id[1..][k] == id[k + 1];
      KeyEndsAtNul(id[1..], rest);
    }
  }

  /** Ids with the same key are not told apart. */
  lemma {:induction false} SameKeySamePrefix(t: Id, x: Id, k: nat)
    requires k <= |t| && k <= |x| && KeyOf(t[k..]) == KeyOf(x[k..])
    ensures SamePrefix(t, x, k)
    decreases |t| - k
  {
    if k < |t| && t[k] != 0 {
      var a, b := t[k..], x[k..];
      assert KeyOf(a)[0] == KeyOf(b)[0] && KeyOf(a)[1..] == KeyOf(b)[1..];
      assert a[1..] == t[k + 1..] && b[1..] == x[k + 1..];
      SameKeySamePrefix(t, x, k + 1);
    }
  }

  lemma SameKeyFound(ids: seq<Id>, t: Id, x: Id)
    requires t in ids && KeyOf(t) == KeyOf(x)
    ensures Found(ids, x)
  {
    assert t[0..] == t && x[0..] == x;
    SameKeySamePrefix(t, x, 0);
  }

  /** The database has a record of the transaction with that id. */
  ghost predicate Recorded(db: map<Text, Text>, id: Id) {
    KeyOf(id) in db && exists v :: JsonDom.Valid(v) && IdOf(v) == Some(id) && db[KeyOf(id)] == Print(v)
  }

  ghost predicate AllRecorded(db: map<Text, Text>, ids: seq<Id>) {
    forall id | id in ids :: Recorded(db, id)
  }

  /** The list of ids and the database. */
  datatype Store = Store(ids: seq<Id>, db: map<Text, Text>)

  /** A transaction of a page is saved and listed unless it is listed already. */
  function Absorb(s: Store, a: Arrival): (r: Store) {
    match IdOf(a.item)
    case None => s
    case Some(id) =>
      if Found(s.ids, id) || !a.saved then s else Store(s.ids + [id], s.db[KeyOf(id) := Print(a.item)])
  }

  /** The first k transactions of a page. */
  function AbsorbAll(s: Store, page: seq<Arrival>, k: nat): (r: Store)
    requires k <= |page|
  {
    if k == 0 then s else Absorb(AbsorbAll(s, page, k - 1), page[k - 1])
  }

  lemma SnocNoDuplicates(ids: seq<Id>, id: Id)
    requires NoDuplicates(ids) && id !in ids
    ensures NoDuplicates(ids + [id])
  {
  }

  /** Whatever arrives, no id is listed twice and none goes. */
  lemma AbsorbDistinct(s: Store, a: Arrival)
    requires NoDuplicates(s.ids)
    ensures NoDuplicates(Absorb(s, a).ids) && s.ids <= Absorb(s, a).ids
  {
    if Absorb(s, a) != s {
      var id := IdOf(a.item).value;
      SameAsItself(id, 0);
      SnocNoDuplicates(s.ids, id);
    }
  }

  /** Whatever arrives for an address, a NUL or an address among the ids, every id of its list has its own record. */
  lemma AbsorbRecords(s: Store, a: Arrival)
    requires JsonDom.Valid(a.item) && AllRecorded(s.db, s.ids)
    ensures AllRecorded(Absorb(s, a).db, Absorb(s, a).ids)
  {
    var r := Absorb(s, a);
    if r != s {
      var id := IdOf(a.item).value;
      assert Recorded(r.db, id);
      forall x | x in s.ids ensures Recorded(r.db, x) {
        if KeyOf(x) == KeyOf(id) { SameKeyFound(s.ids, x, id); }
        assert Recorded(s.db, x);
      }
    }
  }

  /** Texts saved earlier for other ids stay; nothing disappears. */
  lemma AbsorbKeeps(s: Store, a: Arrival, addrs: set<Text>)
    requires Proper(a, addrs) && NoDuplicates(s.ids) && AllRecorded(s.db, s.ids)
    ensures var r := Absorb(s, a);
            && NoDuplicates(r.ids) && AllRecorded(r.db, r.ids) && s.ids <= r.ids
            && (forall id | NoNul(id) :: Recorded(s.db, id) ==> Recorded(r.db, id))
            && (forall k | k in addrs :: k in s.db <==> k in r.db)
            && (forall k | k in addrs && k in s.db :: r.db[k] == s.db[k])
  {
    var r := Absorb(s, a);
    AbsorbDistinct(s, a);
    AbsorbRecords(s, a);
    if r != s {
      var id := IdOf(a.item).value;
      KeyIsId(id);
      forall x | NoNul(x) && Recorded(s.db, x) ensures Recorded(r.db, x) { KeyIsId(x); }
    }
  }

  /** A new transaction whose id only begins like a listed one is dropped. */
  lemma LongerIdDropped(db: map<Text, Text>)
    ensures var v := ObjectValue([Member(TRANSACTION, StringValue(['a' as int, 'b' as int]))]);
            IdOf(v) == Some(['a' as int, 'b' as int]) && Absorb(Store([['a' as int]], db), Arrival(v, true)) == Store([['a' as int]], db)
  {
    var t, x := ['a' as int], ['a' as int, 'b' as int];
    assert SamePrefix(t, x, 1);
    assert SamePrefix(t, x, 0);
    assert t in [t];
  }

  // ---------------------------------------------------------------------------------------------
  // A history that does not change
  // ---------------------------------------------------------------------------------------------

  /** Transactions, newest first, with ids that are all different. */
  ghost predicate IsHistory(history: seq<Value>, addrs: set<Text>) {
    |history| < TWO32 && (forall v | v in history :: Transaction(v, addrs)) && NoDuplicates(Ids(history))
  }

  ghost predicate Transaction(v: Value, addrs: set<Text>) {
    IdOf(v).Some? && Proper(Arrival(v, true), addrs)
  }

  function Ids(history: seq<Value>): (r: seq<Id>)
    ensures |r| == |history|
  {
    seq(|history|, k requires 0 <= k < |history| => if IdOf(history[k]).Some? then IdOf(history[k]).value else [])
  }

  lemma HistoryIds(history: seq<Value>, addrs: set<Text>)
    requires IsHistory(history, addrs)
    ensures NoDuplicates(Ids(history)) && AllNoNul(Ids(history)) && |history| < TWO32
  {
    forall k | 0 <= k < |history| ensures NoNul(Ids(history)[k]) { assert Transaction(history[k], addrs); }
    hide NoNul, IdOf, JsonDom.Valid;
  }

  /** The answer to a request for ten transactions from `begin` on; the database takes them all. */
  function Page(history: seq<Value>, begin: nat): (r: seq<Arrival>)
    requires begin <= |history|
    ensures |r| == if begin + 10 <= |history| then 10 else |history| - begin
    ensures forall k | 0 <= k < |r| :: r[k] == Arrival(history[begin + k], true)
  {
    var n := if begin + PAGE <= |history| then PAGE else |history| - begin;
    seq(n, k requires 0 <= k < n => Arrival(history[begin + k], true))
  }

  /** The ids of a page arrive one after the other. */
  lemma {:induction false} PageListed(s: Store, history: seq<Value>, addrs: set<Text>, begin: nat, k: nat)
    requires IsHistory(history, addrs) && begin <= |history| && k <= |Page(history, begin)|
    ensures AbsorbAll(s, Page(history, begin), k).ids == Listing(s.ids, Ids(history), begin, begin + k)
  {
    hide IdOf, Found, Proper;
    if k > 0 {
      PageListed(s, history, addrs, begin, k - 1);
      assert Transaction(history[begin + k - 1], addrs);
    }
  }

  lemma PageProper(history: seq<Value>, addrs: set<Text>, begin: nat)
    requires IsHistory(history, addrs) && begin <= |history|
    ensures forall a | a in Page(history, begin) :: Proper(a, addrs)
  {
    hide Proper;
    var page := Page(history, begin);
    forall a | a in page ensures Proper(a, addrs) {
      var k :| 0 <= k < |page| && page[k] == a;
      assert Transaction(history[begin + k], addrs);
    }
  }

  // ---------------------------------------------------------------------------------------------
  // The cache
  // ---------------------------------------------------------------------------------------------

  /** Different ids, none of them an address, that all have a record. */
  ghost predicate ListGood(addrs: set<Text>, db: map<Text, Text>, ids: seq<Id>) {
    NoDuplicates(ids) && AllRecorded(db, ids) && forall id | id in ids :: id !in addrs && Writable(id) && NoNul(id)
  }

  /** What is saved for an address, if anything, is such a list. */
  ghost predicate Saved(addrs: set<Text>, db: map<Text, Text>, addr: Text) {
    addr in db ==> exists ids :: db[addr] == Print(IdList(ids)) && |ids| < TWO32 && ListGood(addrs, db, ids)
  }

  ghost predicate Good(addrs: set<Text>, lists: map<Text, seq<Id>>, db: map<Text, Text>) {
    lists.Keys == addrs && forall a | a in addrs :: ListGood(addrs, db, lists[a]) && Saved(addrs, db, a)
  }

  /** No record is lost. */
  ghost predicate Grows(addrs: set<Text>, db: map<Text, Text>, more: map<Text, Text>) {
    forall id | id !in addrs && NoNul(id) && Recorded(db, id) :: Recorded(more, id)
  }

  lemma ListStaysGood(addrs: set<Text>, db: map<Text, Text>, more: map<Text, Text>, ids: seq<Id>)
    requires ListGood(addrs, db, ids) && Grows(addrs, db, more)
    ensures ListGood(addrs, more, ids)
  {
    hide Recorded, NoDuplicates;
  }

  lemma SavedStaysGood(addrs: set<Text>, db: map<Text, Text>, more: map<Text, Text>, addr: Text)
    requires Saved(addrs, db, addr) && Grows(addrs, db, more) && (addr in db <==> addr in more) && (addr in db ==> more[addr] == db[addr])
    ensures Saved(addrs, more, addr)
  {
    if addr in db {
      var ids :| db[addr] == Print(IdList(ids)) && |ids| < TWO32 && ListGood(addrs, db, ids);
      ListStaysGood(addrs, db, more, ids);
      hide ListGood, Grows, Print;
    }
  }

  /** A transaction of a page keeps everything in order. */
  lemma GoodAbsorb(addrs: set<Text>, lists: map<Text, seq<Id>>, db: map<Text, Text>, addr: Text, a: Arrival)
    requires Good(addrs, lists, db) && addr in addrs && Proper(a, addrs)
    ensures var r := Absorb(Store(lists[addr], db), a); Good(addrs, lists[addr := r.ids], r.db)
  {
    var s := Store(lists[addr], db);
    var r := Absorb(s, a);
    AbsorbKeeps(s, a, addrs);
    AbsorbWidth(s, a, addrs);
    hide Recorded, NoDuplicates, Absorb, Proper;
    assert Grows(addrs, db, r.db);
    forall b | b in addrs ensures ListGood(addrs, r.db, lists[addr := r.ids][b]) && Saved(addrs, r.db, b) {
      ListStaysGood(addrs, db, r.db, lists[b]);
      SavedStaysGood(addrs, db, r.db, b);
      hide Grows, Saved;
    }
  }

  lemma AbsorbWidth(s: Store, a: Arrival, addrs: set<Text>)
    requires Proper(a, addrs) && forall id | id in s.ids :: id !in addrs && Writable(id) && NoNul(id)
    ensures forall id | id in Absorb(s, a).ids :: id !in addrs && Writable(id) && NoNul(id)
  {
  }

  /** Saving a list for its address keeps everything in order. */
  lemma GoodSave(addrs: set<Text>, lists: map<Text, seq<Id>>, db: map<Text, Text>, addr: Text)
    requires Good(addrs, lists, db) && addr in addrs && |lists[addr]| < TWO32
    ensures Good(addrs, lists, db[addr := Print(IdList(lists[addr]))]) && Storable(IdList(lists[addr]))
  {
    hide Storable;
    ListStorable(addrs, db, lists[addr]);
    var more := db[addr := Print(IdList(lists[addr]))];
    forall id | id !in addrs && NoNul(id) && Recorded(db, id) ensures Recorded(more, id) { KeyIsId(id); }
    assert Grows(addrs, db, more);
    forall b | b in addrs ensures ListGood(addrs, more, lists[b]) && Saved(addrs, more, b) {
      ListStaysGood(addrs, db, more, lists[b]);
      if b == addr {
        assert more[addr] == Print(IdList(lists[addr]));
      } else {
        SavedStaysGood(addrs, db, more, b);
      }
      hide Recorded, NoDuplicates, Grows, Print, AllRecorded;
    }
  }

  function ToLower(t: Text): (r: Text)
    ensures |r| == |t|
  {
    seq(|t|, k requires 0 <= k < |t| => if 'A' as int <= t[k] <= 'Z' as int then t[k] + 32 else t[k])
  }

  /** The letters from A to Z become those from a to z, and nothing else changes. */
  lemma Lowered(t: Text, k: nat)
    requires k < |t|
    ensures ToLower(t)[k] == if 65 <= t[k] <= 90 then "abcdefghijklmnopqrstuvwxyz"[t[k] - 65] as int else t[k]
  {
  }

  /** A page, or one of the failures after which the same page is asked for again. */
  datatype Reply = NoReply | Transactions(page: seq<Arrival>)

  /** The state of the paging loop. */
  datatype Loop = Loop(store: Store, begin: nat)

  predicate GoesOn(l: Loop, count: nat) {
    l.begin < count && |l.store.ids| < count
  }

  /** One turn of the loop: a failure is asked again, an empty page starts over, and the position wraps around. */
  function Turn(l: Loop, count: nat, reply: Reply): (r: Loop) {
    if !GoesOn(l, count) then l
    else match reply
      case NoReply => l
      case Transactions(page) =>
        if page == [] then Loop(l.store, 0) else Loop(AbsorbAll(l.store, page, |page|), (l.begin + PAGE) % TWO32)
  }

  /** What the paging loop makes of replies, one after the other. */
  function Paged(s: Store, count: nat, replies: seq<Reply>): (r: Loop) {
    if replies == [] then Loop(s, 0)
    else Turn(Paged(s, count, replies[..|replies| - 1]), count, replies[|replies| - 1])
  }

  /** When the loop has ended nothing more happens. */
  lemma {:induction false} PagedStays(s: Store, count: nat, replies: seq<Reply>, k: nat)
    requires k <= |replies| && (k == |replies| || !GoesOn(Paged(s, count, replies[..k]), count))
    ensures Paged(s, count, replies) == Paged(s, count, replies[..k])
    decreases |replies|
  {
    if k == |replies| {
      assert replies[..k] == replies;
    } else {
      var init := replies[..|replies| - 1];
      assert init[..k] == replies[..k];
      PagedStays(s, count, init, k);
    }
  }

  /** A list that is long enough is left as it is: nothing is asked for. */
  lemma {:induction false} FullStays(s: Store, count: nat, replies: seq<Reply>)
    requires |s.ids| >= count
    ensures Paged(s, count, replies) == Loop(s, 0)
    decreases |replies|
  {
    if replies != [] { FullStays(s, count, replies[..|replies| - 1]); }
  }

  /** After an empty page the loop goes on as one that starts with what has been gathered. */
  lemma {:induction false} EmptyStartsOver(s: Store, count: nat, replies: seq<Reply>, more: seq<Reply>)
    requires GoesOn(Paged(s, count, replies), count)
    ensures Paged(s, count, replies + [Transactions([])] + more) == Paged(Paged(s, count, replies).store, count, more)
    decreases |more|
  {
    hide AbsorbAll;
    var all := replies + [Transactions([])] + more;
    if more == [] {
      assert all[..|all| - 1] == replies;
    } else {
      var init := more[..|more| - 1];
      EmptyStartsOver(s, count, replies, init);
      assert all[..|all| - 1] == replies + [Transactions([])] + init;
    }
  }

  /** The page has a transaction with that id, among its first k, which the database took. */
  ghost predicate SavedIn(page: seq<Arrival>, k: nat, id: Id)
    requires k <= |page|
  {
    exists j :: 0 <= j < k && page[j].saved && IdOf(page[j].item) == Some(id)
  }

  /** What a page adds to the list was in the page and was saved; what was saved counts as listed. */
  lemma {:induction false} PageAdds(s: Store, page: seq<Arrival>, k: nat, id: Id)
    requires k <= |page|
    ensures id in AbsorbAll(s, page, k).ids ==> id in s.ids || SavedIn(page, k, id)
    ensures SavedIn(page, k, id) || Found(s.ids, id) ==> Found(AbsorbAll(s, page, k).ids, id)
  {
    hide IdOf, KeyOf, Print;
    if k > 0 {
      PageAdds(s, page, k - 1, id);
      SameAsItself(id, 0);
    }
  }

  ghost predicate SavedInReply(reply: Reply, id: Id) {
    reply.Transactions? && SavedIn(reply.page, |reply.page|, id)
  }

  /** Every id that the paging loop adds to a list is that of a transaction in a reply, which the database took. */
  lemma {:induction false} ListedWasSaved(s: Store, count: nat, replies: seq<Reply>, id: Id)
    requires id in Paged(s, count, replies).store.ids && id !in s.ids
    ensures exists r :: r in replies && SavedInReply(r, id)
    decreases |replies|
  {
    hide AbsorbAll, SavedIn;
    if replies != [] {
      var init, last := replies[..|replies| - 1], replies[|replies| - 1];
      var l := Paged(s, count, init);
      if id in l.store.ids {
        ListedWasSaved(s, count, init, id);
      } else {
        PageAdds(l.store, last.page, |last.page|, id);
        assert SavedInReply(last, id);
      }
    }
  }

  /** The records of a list, read back in its order. */
  ghost predicate AreRecordsOf(records: seq<Value>, ids: seq<Id>) {
    |records| == |ids| && forall k | 0 <= k < |ids| :: IdOf(records[k]) == Some(ids[k])
  }

  class Cache {
    const addrs: set<Text>
    var lists: map<Text, seq<Id>>
    var db: map<Text, Text>

    ghost predicate Valid()
      reads this
    {
      Good(addrs, lists, db)
    }

    constructor (addrs: set<Text>)
      ensures Valid() && this.addrs == addrs && db == map[]
    {
      this.addrs := addrs;
      lists, db := map a | a in addrs :: [], map[];
    }

    /** The search through the list of an address. */
    method Lookup(addr: Text, x: Id) returns (found: bool)
      requires addr in lists
      ensures found == Found(lists[addr], x)
    {
      var ids := lists[addr];
      found := false;
      var k: nat := 0;
      while k < |ids|
        invariant k <= |ids| && forall j | 0 <= j < k :: !SamePrefix(ids[j], x, 0)
      {
        if SamePrefix(ids[k], x, 0) {
          return true;
        }
        k := k + 1;
      }
    }

    /** One transaction of a page. */
    method TakeTransaction(addr: Text, a: Arrival)
      requires Valid() && addr in addrs && Proper(a, addrs)
      modifies this
      ensures Valid() && Store(lists[addr], db) == Absorb(old(Store(lists[addr], db)), a)
      ensures lists == old(lists)[addr := lists[addr]]
    {
      GoodAbsorb(addrs, lists, db, addr, a);
      hide Good, ListGood, Saved, Found, JsonDom.Valid, Print, IdOf;
      GoodKeys(addrs, lists, db);
      ghost var was := lists;
      var id := IdOf(a.item);
      if id.None? {
        assert was == was[addr := was[addr]];
        return;
      }
      var found := Lookup(addr, id.value);
      if found || !a.saved {
        assert was == was[addr := was[addr]];
        return;
      }
      db := db[KeyOf(id.value) := Print(a.item)];
      lists := lists[addr := lists[addr] + [id.value]];
    }

    /** A page of transactions. */
    method TakePage(addr: Text, page: seq<Arrival>)
      requires Valid() && addr in addrs && forall a | a in page :: Proper(a, addrs)
      modifies this
      ensures Valid() && addr in lists && Store(lists[addr], db) == AbsorbAll(old(Store(lists[addr], db)), page, |page|)
      ensures lists == old(lists)[addr := lists[addr]]
    {
      hide Good, Absorb, Proper;
      GoodKeys(addrs, lists, db);
      assert lists == lists[addr := lists[addr]];
      var k: nat := 0;
      while k < |page|
        invariant k <= |page| && Valid() && addr in lists
        invariant Store(lists[addr], db) == AbsorbAll(old(Store(lists[addr], db)), page, k)
        invariant lists == old(lists)[addr := lists[addr]]
      {
        TakeTransaction(addr, page[k]);
        GoodKeys(addrs, lists, db);
        k := k + 1;
      }
    }

    /** save_history. */
    method SaveHistory(addr: Text)
      requires Valid() && addr in addrs && addr in lists && |lists[addr]| < TWO32
      modifies this`db
      ensures Valid() && db == old(db)[addr := Print(IdList(lists[addr]))] && Storable(IdList(lists[addr]))
    {
      GoodSave(addrs, lists, db, addr);
      hide Good, Print, Storable;
      db := db[addr := Print(IdList(lists[addr]))];
    }

    /** The paging loop against any replies: whatever arrives, the lists and the records stay in order. */
    method GatherAny(addr: Text, count: nat, replies: seq<Reply>)
      requires Valid() && addr in addrs && count < TWO32
      requires forall r | r in replies && r.Transactions? :: forall a | a in r.page :: Proper(a, addrs)
      modifies this
      ensures Valid() && addr in lists && lists == old(lists)[addr := lists[addr]]
      ensures Store(lists[addr], db) == Paged(old(Store(lists[addr], db)), count, replies).store
    {
      hide Good, Proper, AbsorbAll;
      GoodKeys(addrs, lists, db);
      assert lists == lists[addr := lists[addr]];
      var begin: nat := 0;
      var k: nat := 0;
      while k < |replies| && begin < count && |lists[addr]| < count
        invariant k <= |replies| && Valid() && addr in lists && lists == old(lists)[addr := lists[addr]]
        invariant Loop(Store(lists[addr], db), begin) == Paged(old(Store(lists[addr], db)), count, replies[..k])
      {
        var reply := replies[k];
        assert replies[..k + 1][..k] == replies[..k];
        k := k + 1;
        if reply.NoReply? {
          continue;
        }
        if |reply.page| == 0 {
          begin := 0;
          continue;
        }
        TakePage(addr, reply.page);
        begin := (begin + PAGE) % TWO32;
      }
      PagedStays(old(Store(lists[addr], db)), count, replies, k);
    }

    /**
      get_history: nothing for an address that is not cached or has nothing saved; otherwise one record for each id of the
      saved list, in its order.
     */
    method GetHistory(address: Text, big: TooBig) returns (r: Option<seq<Value>>, ghost saved: seq<Id>)
      requires Valid()
      ensures r.None? <==> ToLower(address) !in addrs || ToLower(address) !in db
      ensures r.Some? ==> db[ToLower(address)] == Print(IdList(saved)) && AreRecordsOf(r.value, saved) && NoDuplicates(saved)
    {
      var addr := ToLower(address);
      saved := [];
      if addr !in addrs || addr !in db {
        return None, [];
      }
      GoodSaved(addrs, lists, db, addr);
      hide Good, Load, Print, Recorded, NoDuplicates;
      saved :| db[addr] == Print(IdList(saved)) && |saved| < TWO32 && ListGood(addrs, db, saved);
      ListLoads(addrs, db, saved, big);
      var list := Load(db[addr], big).value;
      hide ListGood;
      var records := ReadRecords(list.elements, saved, big);
      r := Some(records);
    }

    /** The loop of get_history: the records of a list of ids. */
    method ReadRecords(list: seq<Value>, ghost ids: seq<Id>, big: TooBig) returns (records: seq<Value>)
      requires ArrayValue(list) == IdList(ids) && ListGood(addrs, db, ids)
      ensures AreRecordsOf(records, ids)
    {
      hide Load, Print, Recorded, NoDuplicates, IdOf;
      records := [];
      var k: nat := 0;
      while k < |list|
        invariant k <= |ids| && AreRecordsOf(records, ids[..k])
      {
        var id := list[k].str;
        assert id == ids[k] && id in ids;
        assert ids[..k + 1] == ids[..k] + [id];
        RecordLoads(db, id, big);
        if KeyOf(id) in db && db[KeyOf(id)] != [] {
          var loaded := Load(db[KeyOf(id)], big);
          if loaded.Some? {
            RecordsSnoc(records, ids[..k], loaded.value, id);
            records := records + [loaded.value];
          }
        }
        k := k + 1;
      }
      assert ids[..k] == ids;
    }

    /** One turn of the paging loop against a history that does not change. */
    method GatherPage(addr: Text, history: seq<Value>, begin: nat) returns (next: nat, ghost covered: nat)
      requires Valid() && addr in addrs && addr in lists && IsHistory(history, addrs) && begin < |history|
      modifies this
      ensures Valid() && addr in lists && lists == old(lists)[addr := lists[addr]]
      ensures begin < covered <= |history| && lists[addr] == Listing(old(lists[addr]), Ids(history), begin, covered)
      ensures next == (begin + PAGE) % TWO32 && (covered == begin + PAGE || covered == |history| <= begin + PAGE)
    {
      hide Good, Listing;
      var page := Page(history, begin);
      covered := begin + |page|;
      PageProper(history, addrs, begin);
      PageListed(Store(lists[addr], db), history, addrs, begin, |page|);
      TakePage(addr, page);
      next := (begin + PAGE) % TWO32;
    }

    /** The next turn of the loop, on the way through the history or once more. */
    method GatherMore(addr: Text, history: seq<Value>, ghost first: seq<Id>, begin: nat, ghost covered: nat) returns (next: nat, ghost now: nat)
      requires Valid() && addr in addrs && addr in lists && IsHistory(history, addrs) && begin < |history|
      requires covered <= |history| && lists[addr] == Listing(first, Ids(history), 0, covered)
      requires (covered == begin && begin % PAGE == 0) || (covered == |history| < TWO32 - 1 && begin % PAGE == 4)
      modifies this
      ensures Valid() && addr in lists && lists == old(lists)[addr := lists[addr]]
      ensures covered <= now <= |history| && (covered < |history| ==> covered < now) && lists[addr] == Listing(first, Ids(history), 0, now)
      ensures (now == next && next % PAGE == 0) || (now == |history| && (next >= |history| || next % PAGE == 4))
      ensures covered == |history| ==> begin < next
    {
      hide Good, Listing, IsHistory, Ids;
      HistorySize(history, addrs);
      next, now := GatherPage(addr, history, begin);
      if covered == |history| {
        NothingNew(first, Ids(history), begin, now);
        now := covered;
      } else {
        ListingJoin(first, Ids(history), 0, covered, now);
      }
    }

    /**
      The loop for an address whose count of transactions is that of a history which does not change, with any number of
      failed requests before each page. It ends, and the list then holds exactly the ids of the history if and only if it held
      no others before and no new id begins like one that is listed or newer. What it holds is saved. (The 32-bit position may start over, at
      4. Only for 2^32 - 1 ids can this go on without end, and it does when the list stays short.)
     */
    method Refresh(addr: Text, history: seq<Value>, failures: nat -> nat)
      requires Valid() && addr in addrs && addr in lists && IsHistory(history, addrs) && |lists[addr]| + |history| < TWO32
      requires |history| < TWO32 - 1 || Clear(lists[addr], Ids(history))
      modifies this
      ensures Valid() && addr in lists && lists == old(lists)[addr := lists[addr]]
      ensures (forall id :: id in lists[addr] <==> id in Ids(history)) <==>
              (forall id | id in old(lists[addr]) :: id in Ids(history)) && Clear(old(lists[addr]), Ids(history))
      ensures |old(lists[addr])| != |history| ==> addr in db && db[addr] == Print(IdList(lists[addr]))
    {
      hide Good, Print, IsHistory, Listing, Clear;
      ghost var first, all := lists[addr], Ids(history);
      HistoryIds(history, addrs);
      GoodList(addrs, lists, db, addr);
      NothingArrived(first, all);
      assert lists == lists[addr := first];
      if |lists[addr]| == |history| {
        WholeHistory(first, all, 0);
        return;
      }
      var begin: nat := 0;
      ghost var covered: nat := 0;
      var failed: nat := failures(0);
      while begin < |history| && |lists[addr]| < |history|
        invariant Valid() && addr in lists && lists == old(lists)[addr := lists[addr]]
        invariant covered <= |history| && lists[addr] == Listing(first, all, 0, covered)
        invariant (covered == begin && begin % PAGE == 0) ||
                  (covered == |history| && (begin >= |history| || begin % PAGE == 4 || Clear(first, all)))
        decreases |history| - covered, TWO32 - begin, failed
      {
        if failed > 0 {
          failed := failed - 1;
          continue;
        }
        if covered == |history| && Clear(first, all) { ClearIsLong(first, all); }
        begin, covered := GatherMore(addr, history, first, begin, covered);
        failed := failures(begin);
      }
      GoodList(addrs, lists, db, addr);
      WholeHistory(first, all, covered);
      ListingFrom(first, all, covered);
      SaveHistory(addr);
    }
  }

  lemma HistorySize(history: seq<Value>, addrs: set<Text>)
    requires IsHistory(history, addrs)
    ensures |history| < TWO32
  {
  }

  lemma NothingArrived(first: seq<Id>, all: seq<Id>)
    ensures Listing(first, all, 0, 0) == first
  {
  }

  lemma RecordsSnoc(records: seq<Value>, ids: seq<Id>, v: Value, id: Id)
    requires AreRecordsOf(records, ids) && IdOf(v) == Some(id)
    ensures AreRecordsOf(records + [v], ids + [id])
  {
  }

  lemma ListStorable(addrs: set<Text>, db: map<Text, Text>, ids: seq<Id>)
    requires |ids| < TWO32 && ListGood(addrs, db, ids)
    ensures JsonDom.Valid(IdList(ids)) && Storable(IdList(ids))
  {
    hide NoDuplicates, AllRecorded, Storable;
    var list := IdList(ids);
    forall e | e in list.elements ensures JsonDom.Valid(e) && AllWritable(e) {
      var k :| 0 <= k < |ids| && list.elements[k] == e;
      assert ids[k] in ids;
    }
    WritableStorable(list);
  }

  /** A list that is read back from its text. */
  lemma ListLoads(addrs: set<Text>, db: map<Text, Text>, ids: seq<Id>, big: TooBig)
    requires |ids| < TWO32 && ListGood(addrs, db, ids)
    ensures Load(Print(IdList(ids)), big) == Some(IdList(ids))
  {
    ListStorable(addrs, db, ids);
    LoadPrint(IdList(ids), big);
    hide Load, Print;
  }

  lemma RecordLoads(db: map<Text, Text>, id: Id, big: TooBig)
    requires Recorded(db, id)
    ensures KeyOf(id) in db && db[KeyOf(id)] != [] && Load(db[KeyOf(id)], big).Some? && IdOf(Load(db[KeyOf(id)], big).value) == Some(id)
  {
    var v :| JsonDom.Valid(v) && IdOf(v) == Some(id) && db[KeyOf(id)] == Print(v);
    LoadPrint(v, big);
    hide Load, Print;
  }

  lemma GoodSaved(addrs: set<Text>, lists: map<Text, seq<Id>>, db: map<Text, Text>, addr: Text)
    requires Good(addrs, lists, db) && addr in addrs
    ensures Saved(addrs, db, addr)
  {
  }

  lemma GoodList(addrs: set<Text>, lists: map<Text, seq<Id>>, db: map<Text, Text>, addr: Text)
    requires Good(addrs, lists, db) && addr in addrs
    ensures addr in lists && NoDuplicates(lists[addr]) && AllNoNul(lists[addr])
  {
  }

  lemma GoodKeys(addrs: set<Text>, lists: map<Text, seq<Id>>, db: map<Text, Text>)
    requires Good(addrs, lists, db)
    ensures lists.Keys == addrs
  {
  }
}
