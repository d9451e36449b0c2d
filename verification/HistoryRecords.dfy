/**
  The database of history_cache.cpp over whole runs, for any ids. Transactions are stored under the text before the first NUL
  of their ids and lists under their addresses, all in one place, so that a record may be overwritten.
 */
module HistoryRecords {
  import opened Wrappers
  import opened JsonSyntax
  import opened JsonDom
  import opened JsonPrint
  import opened HistoryList
  import opened HistoryCache

  // ---------------------------------------------------------------------------------------------
  // Writes one after the other
  // ---------------------------------------------------------------------------------------------

  /** save_transaction and save_history. */
  datatype Write = PutItem(item: Value, id: Id) | PutList(addr: Text, ids: seq<Id>)

  ghost predicate Sound(w: Write) {
    w.PutItem? ==> JsonDom.Valid(w.item) && IdOf(w.item) == Some(w.id)
  }

  ghost predicate AllSound(log: seq<Write>) {
    forall w | w in log :: Sound(w)
  }

  function Target(w: Write): (key: Text) {
    match w
    case PutItem(_, id) => KeyOf(id)
    case PutList(addr, _) => addr
  }

  function Content(w: Write): (text: Text) {
    match w
    case PutItem(item, _) => Print(item)
    case PutList(_, ids) => Print(IdList(ids))
  }

  function Written(log: seq<Write>): (db: map<Text, Text>) {
    if log == [] then map[] else Written(log[..|log| - 1])[Target(log[|log| - 1]) := Content(log[|log| - 1])]
  }

  /** The last write under a key. */
  function LastWrite(log: seq<Write>, key: Text): (r: Option<Write>)
    ensures r.Some? ==> r.value in log && Target(r.value) == key
  {
    if log == [] then None
    else if Target(log[|log| - 1]) == key then Some(log[|log| - 1])
    else LastWrite(log[..|log| - 1], key)
  }

  lemma {:induction false} WrittenLast(log: seq<Write>, key: Text)
    ensures key in Written(log) <==> LastWrite(log, key).Some?
    ensures LastWrite(log, key).Some? ==> Written(log)[key] == Content(LastWrite(log, key).value)
    decreases |log|
  {
    hide Target, Content;
    if log != [] { WrittenLast(log[..|log| - 1], key); }
  }

  /** Different values have different texts. */
  lemma SameText(v: Value, w: Value)
    requires JsonDom.Valid(v) && JsonDom.Valid(w) && Print(v) == Print(w)
    ensures v == w
  {
    hide Print, Load;
    var big: TooBig := _ => false;
    LoadPrint(v, big);
    LoadPrint(w, big);
  }

  lemma ListIsNoTransaction(ids: seq<Id>, v: Value)
    requires IdOf(v).Some?
    ensures Print(IdList(ids)) != Print(v)
  {
    assert v.ObjectValue?;
    assert Print(IdList(ids))[0] == '[' as int && Print(v)[0] == '{' as int;
  }

  /** An id has its own record if and only if the last write under its key is one of a transaction with that id. */
  lemma OwnRecord(log: seq<Write>, id: Id)
    requires AllSound(log)
    ensures Recorded(Written(log), id) <==> LastWrite(log, KeyOf(id)).Some? && LastWrite(log, KeyOf(id)).value.PutItem?
                                            && LastWrite(log, KeyOf(id)).value.id == id
  {
    hide Print, IdOf, JsonDom.Valid, Written, KeyOf;
    WrittenLast(log, KeyOf(id));
    var last := LastWrite(log, KeyOf(id));
    if last.Some? {
      assert Sound(last.value);
      forall v | JsonDom.Valid(v) && IdOf(v) == Some(id) && Content(last.value) == Print(v)
        ensures last.value.PutItem? && last.value.id == id
      {
        if last.value.PutItem? { SameText(last.value.item, v); } else { ListIsNoTransaction(last.value.ids, v); }
      }
    }
  }

  // ---------------------------------------------------------------------------------------------
  // Runs of the cache
  // ---------------------------------------------------------------------------------------------

  /** A transaction arrives for an address, or the list of an address is saved. */
  datatype Happening = Arrives(addr: Text, a: Arrival) | Saves(addr: Text)

  datatype State = State(lists: map<Text, seq<Id>>, db: map<Text, Text>, log: seq<Write>)

  function Step(s: State, h: Happening): (r: State) {
    if h.addr !in s.lists then s
    else match h
      case Saves(addr) => State(s.lists, s.db[addr := Print(IdList(s.lists[addr]))], s.log + [PutList(addr, s.lists[addr])])
      case Arrives(addr, a) =>
        var store := Absorb(Store(s.lists[addr], s.db), a);
        if store.ids == s.lists[addr] then s
        else State(s.lists[addr := store.ids], store.db, s.log + [PutItem(a.item, IdOf(a.item).value)])
  }

  function Run(addrs: set<Text>, run: seq<Happening>): (s: State) {
    if run == [] then State(map a | a in addrs :: [], map[], [])
    else Step(Run(addrs, run[..|run| - 1]), run[|run| - 1])
  }

  ghost predicate AllValid(run: seq<Happening>) {
    forall h | h in run && h.Arrives? :: JsonDom.Valid(h.a.item)
  }

  /** Some write put a transaction with that id. */
  ghost predicate WasPut(log: seq<Write>, id: Id) {
    exists w :: w in log && w.PutItem? && w.id == id
  }

  /** The ids of a list have different keys. */
  ghost predicate DistinctKeys(ids: seq<Id>) {
    forall i, j | 0 <= i < j < |ids| :: KeyOf(ids[i]) != KeyOf(ids[j])
  }

  ghost predicate Kept(s: State) {
    && s.db == Written(s.log) && AllSound(s.log)
    && forall addr | addr in s.lists :: DistinctKeys(s.lists[addr]) && forall id | id in s.lists[addr] :: WasPut(s.log, id)
  }

  lemma WrittenSnoc(log: seq<Write>, w: Write)
    ensures Written(log + [w]) == Written(log)[Target(w) := Content(w)]
  {
    assert (log + [w])[..|log|] == log;
  }

  lemma DistinctKeysSnoc(ids: seq<Id>, id: Id)
    requires DistinctKeys(ids) && !Found(ids, id)
    ensures DistinctKeys(ids + [id])
  {
    hide KeyOf;
    forall k | 0 <= k < |ids| ensures KeyOf(ids[k]) != KeyOf(id) {
      if KeyOf(ids[k]) == KeyOf(id) { SameKeyFound(ids, ids[k], id); }
    }
  }

  lemma PutStays(log: seq<Write>, w: Write, id: Id)
    ensures WasPut(log, id) ==> WasPut(log + [w], id)
    ensures w.PutItem? ==> WasPut(log + [w], w.id)
  {
    assert w in log + [w];
    if WasPut(log, id) {
      var v :| v in log && v.PutItem? && v.id == id;
      assert v in log + [w];
    }
  }

  lemma ArrivesKeeps(s: State, addr: Text, a: Arrival)
    requires Kept(s) && JsonDom.Valid(a.item)
    ensures Kept(Step(s, Arrives(addr, a)))
  {
    hide Written, KeyOf, Print, IdOf, JsonDom.Valid, DistinctKeys, WasPut, Found;
    var r := Step(s, Arrives(addr, a));
    if r != s {
      var id := IdOf(a.item).value;
      var w := PutItem(a.item, id);
      WrittenSnoc(s.log, w);
      DistinctKeysSnoc(s.lists[addr], id);
      forall b, x | b in r.lists && x in r.lists[b] ensures WasPut(r.log, x) { PutStays(s.log, w, x); }
    }
  }

  lemma SavesKeeps(s: State, addr: Text)
    requires Kept(s)
    ensures Kept(Step(s, Saves(addr)))
  {
    hide Written, KeyOf, Print, IdOf, JsonDom.Valid, DistinctKeys, WasPut;
    var r := Step(s, Saves(addr));
    if r != s {
      var w := PutList(addr, s.lists[addr]);
      WrittenSnoc(s.log, w);
      forall b, x | b in r.lists && x in r.lists[b] ensures WasPut(r.log, x) { PutStays(s.log, w, x); }
    }
  }

  lemma {:induction false} RunKeeps(addrs: set<Text>, run: seq<Happening>)
    requires AllValid(run)
    ensures Kept(Run(addrs, run))
    decreases |run|
  {
    hide Kept, Step;
    if run == [] {
      NothingKept(addrs);
    } else {
      var n := |run| - 1;
      RunKeeps(addrs, run[..n]);
      match run[n]
      case Arrives(addr, a) => ArrivesKeeps(Run(addrs, run[..n]), addr, a);
      case Saves(addr) => SavesKeeps(Run(addrs, run[..n]), addr);
    }
  }

  lemma NothingKept(addrs: set<Text>)
    ensures Kept(Run(addrs, []))
  {
  }

  /**
    After any run every id of a list has been stored, no two of a list under the same key, and it still has its own record if
    and only if nothing else was written later under its key: no list of an address of that name, and no transaction with
    another id that begins alike up to a NUL.
   */
  lemma ListedOwnRecord(addrs: set<Text>, run: seq<Happening>, addr: Text, id: Id)
    requires AllValid(run) && addr in Run(addrs, run).lists && id in Run(addrs, run).lists[addr]
    ensures var s := Run(addrs, run);
            && DistinctKeys(s.lists[addr]) && WasPut(s.log, id)
            && (Recorded(s.db, id) <==> LastWrite(s.log, KeyOf(id)).Some? && LastWrite(s.log, KeyOf(id)).value.PutItem?
                                        && LastWrite(s.log, KeyOf(id)).value.id == id)
  {
    hide Run, Recorded, LastWrite, DistinctKeys, WasPut, Written;
    RunKeeps(addrs, run);
    OwnRecord(Run(addrs, run).log, id);
  }

  // ---------------------------------------------------------------------------------------------
  // Which ids keep their records
  // ---------------------------------------------------------------------------------------------

  /** No other id that arrives has the same key. */
  ghost predicate Alone(run: seq<Happening>, id: Id) {
    forall h | h in run && h.Arrives? && IdOf(h.a.item).Some? :: KeyOf(IdOf(h.a.item).value) == KeyOf(id) ==> IdOf(h.a.item).value == id
  }

  /** Every write under the key of the id is one of a transaction with that id. */
  ghost predicate OnlyOwn(log: seq<Write>, id: Id) {
    forall w | w in log && Target(w) == KeyOf(id) :: w.PutItem? && w.id == id
  }

  lemma StepOwn(s: State, h: Happening, id: Id)
    requires OnlyOwn(s.log, id) && KeyOf(id) !in s.lists && Alone([h], id)
    ensures OnlyOwn(Step(s, h).log, id) && Step(s, h).lists.Keys == s.lists.Keys
  {
    hide KeyOf, Print, Found, IdOf;
    assert h in [h];
  }

  lemma {:induction false} RunOwn(addrs: set<Text>, run: seq<Happening>, id: Id)
    requires KeyOf(id) !in addrs && Alone(run, id)
    ensures OnlyOwn(Run(addrs, run).log, id) && Run(addrs, run).lists.Keys == addrs
    decreases |run|
  {
    hide Step, KeyOf, IdOf;
    if run != [] {
      RunOwn(addrs, run[..|run| - 1], id);
      StepOwn(Run(addrs, run[..|run| - 1]), run[|run| - 1], id);
    }
  }

  /** An id that is no address, and that no other id shares its key with, always has its own record once it is listed. */
  lemma AloneHasRecord(addrs: set<Text>, run: seq<Happening>, addr: Text, id: Id)
    requires AllValid(run) && addr in Run(addrs, run).lists && id in Run(addrs, run).lists[addr]
    requires KeyOf(id) !in addrs && Alone(run, id)
    ensures Recorded(Run(addrs, run).db, id)
  {
    hide Run, Recorded, Alone, KeyOf, DistinctKeys;
    var log := Run(addrs, run).log;
    RunOwn(addrs, run, id);
    ListedOwnRecord(addrs, run, addr, id);
    var w :| w in log && w.PutItem? && w.id == id;
    LastExists(log, w);
  }

  lemma {:induction false} LastExists(log: seq<Write>, w: Write)
    requires w in log
    ensures LastWrite(log, Target(w)).Some?
    decreases |log|
  {
    hide Target;
    if Target(log[|log| - 1]) != Target(w) { LastExists(log[..|log| - 1], w); }
  }

  lemma RunSnoc(addrs: set<Text>, run: seq<Happening>, h: Happening)
    ensures Run(addrs, run + [h]) == Step(Run(addrs, run), h)
  {
    hide Step;
    assert (run + [h])[..|run|] == run;
  }

  /** An id whose key is an address loses its record when the list of that address is saved. */
  lemma AddressOverwrites(addrs: set<Text>, run: seq<Happening>, id: Id)
    requires KeyOf(id) in Run(addrs, run).lists
    ensures !Recorded(Run(addrs, run + [Saves(KeyOf(id))]).db, id)
  {
    hide Run, KeyOf, Print, IdOf;
    RunSnoc(addrs, run, Saves(KeyOf(id)));
    var list := Run(addrs, run).lists[KeyOf(id)];
    forall v | IdOf(v) == Some(id) ensures Print(v) != Print(IdList(list)) { ListIsNoTransaction(list, v); }
  }

  /** An id loses its record when another one with the same key is listed, which can only be for another address. */
  lemma OtherOverwrites(addrs: set<Text>, run: seq<Happening>, addr: Text, a: Arrival, id: Id)
    requires JsonDom.Valid(a.item) && IdOf(a.item).Some? && IdOf(a.item).value != id && KeyOf(IdOf(a.item).value) == KeyOf(id)
    requires addr in Run(addrs, run).lists && a.saved && !Found(Run(addrs, run).lists[addr], IdOf(a.item).value)
    ensures !Recorded(Run(addrs, run + [Arrives(addr, a)]).db, id) && id !in Run(addrs, run).lists[addr]
  {
    hide Run, KeyOf, Print, IdOf, JsonDom.Valid, Found;
    RunSnoc(addrs, run, Arrives(addr, a));
    var s, x := Run(addrs, run), IdOf(a.item).value;
    if id in s.lists[addr] { SameKeyFound(s.lists[addr], id, x); }
    forall v | JsonDom.Valid(v) && IdOf(v) == Some(id) ensures Print(v) != Print(a.item) {
      if Print(v) == Print(a.item) { SameText(v, a.item); }
    }
  }
}
