/**
  The collector of json_batch_request.cpp: the requests of a batch are answered at once or later, in any order, and the
  answers are sent together when the last one is there. Its methods run under a lock, which is held while the batch is
  processed, so that the answers that come later find it processed.
 */
module BatchRequest {
  import opened Wrappers
  import opened RequestId

  /** An element of the array that is sent: an error made by the collector, whose id 0 is null, or what a handler answered. */
  datatype Entry = Error(id: nat, code: int) | Result(json: string)

  const INVALID_REQUEST := -32600
  const METHOD_NOT_FOUND := -32601
  const INTERNAL_ERROR := -32603

  /** What the handler of a method does: answer at once, or later; there may be none. */
  datatype Handling = NoHandler | Synchronous(answer: Entry) | Asynchronous

  /** A request of a batch, as far as the collector looks at it: whether it is an object, its method, its id and its handler. */
  datatype Request = Request(isObject: bool, name: Option<string>, id: Option<Id>, handling: Handling)

  /** The text of an answer that comes later may be no JSON. */
  datatype Answer = Parsed(entry: Entry) | Unparsable

  datatype Message = InvalidBatch | Responses(entries: seq<Entry>)

  // ---------------------------------------------------------------------------------------------
  // What a batch asks for
  // ---------------------------------------------------------------------------------------------

  /** A request with a method and without an id gets no answer. */
  predicate IsNotification(r: Request) {
    r.isObject && r.name.Some? && r.id.None?
  }

  predicate IsAwaited(r: Request) {
    r.isObject && r.name.Some? && r.id.Some? && r.handling.Asynchronous?
  }

  /** Its id is asked for, because it has no handler, and asking throws. */
  predicate Throws(r: Request) {
    r.isObject && r.name.Some? && r.id.Some? && r.handling.NoHandler? && GetId(r.id.value).None?
  }

  /** The first request from k on that throws, or the end of the batch. */
  function Reached(batch: seq<Request>, k: nat): (r: nat)
    requires k <= |batch|
    ensures k <= r <= |batch| && (forall j | k <= j < r :: !Throws(batch[j])) && (r < |batch| ==> Throws(batch[r]))
    decreases |batch| - k
  {
    if k == |batch| || Throws(batch[k]) then k else Reached(batch, k + 1)
  }

  function EntryOf(a: Answer): (e: Entry) {
    match a
    case Parsed(entry) => entry
    case Unparsable => Error(0, INTERNAL_ERROR)
  }

  /** The entry for a request that is answered at once. One that throws would get a null id; the collector gives it no entry. */
  function Immediate(r: Request): (e: Entry)
    requires !IsNotification(r) && !IsAwaited(r)
  {
    if !r.isObject || r.name.None? then Error(0, INVALID_REQUEST)
    else match r.handling
      case NoHandler => Error(match GetId(r.id.value) case Some(id) => id case None => 0, METHOD_NOT_FOUND)
      case Synchronous(answer) => answer
  }

  /** One entry for each of the first n requests that is no notification, in their order. */
  function Expected(batch: seq<Request>, answers: nat -> Answer, n: nat): (r: seq<Entry>)
    requires n <= |batch|
  {
    if n == 0 then []
    else
      var before, r := Expected(batch, answers, n - 1), batch[n - 1];
      if IsNotification(r) then before
      else before + [if IsAwaited(r) then EntryOf(answers(n - 1)) else Immediate(r)]
  }

  /** The entries that are made while the first n requests are processed. */
  function AtOnce(batch: seq<Request>, n: nat): (r: seq<Entry>)
    requires n <= |batch|
  {
    if n == 0 then []
    else
      var before, r := AtOnce(batch, n - 1), batch[n - 1];
      if IsNotification(r) || IsAwaited(r) then before else before + [Immediate(r)]
  }

  /** The requests among the first n whose answers come later. */
  function Awaited(batch: seq<Request>, n: nat): (r: seq<nat>)
    requires n <= |batch|
  {
    if n == 0 then []
    else if IsAwaited(batch[n - 1]) then Awaited(batch, n - 1) + [n - 1]
    else Awaited(batch, n - 1)
  }

  function Notifications(batch: seq<Request>, n: nat): (r: nat)
    requires n <= |batch|
    ensures r <= n
  {
    if n == 0 then 0 else Notifications(batch, n - 1) + if IsNotification(batch[n - 1]) then 1 else 0
  }

  /** Nothing is to be answered exactly when every request is a notification. */
  lemma {:induction false} NothingToAnswer(batch: seq<Request>, answers: nat -> Answer, n: nat)
    requires n <= |batch|
    ensures Expected(batch, answers, n) == [] <==> forall k | 0 <= k < n :: IsNotification(batch[k])
  {
    if n > 0 { NothingToAnswer(batch, answers, n - 1); }
  }

  /** The id is that number, or a text that spells it. */
  ghost predicate StandsFor(id: Id, v: int) {
    || (id == Number(v) && -0x8000_0000 <= v < 0x1_0000_0000)
    || (id.Text? && -0x8000_0000 <= v < 0x8000_0000 && exists blanks, sign, digits, rest :: Spells(id.text, blanks, sign, digits, rest, v))
  }

  /** The id is no text, and no number that 32 bits hold. */
  ghost predicate StandsForNothing(id: Id) {
    id.OtherId? || (id.Number? && !(-0x8000_0000 <= id.value < 0x1_0000_0000))
  }

  /**
    What the answer to a request says: that it is invalid, without id; that its method is unknown, with its id as a number of 32 bits;
    or what its handler answered, an answer that is no JSON being an internal error.
   */
  ghost predicate RightEntry(r: Request, answer: Answer, e: Entry) {
    if !r.isObject || r.name.None? then e == Error(0, -32600)
    else match r.handling
      case NoHandler =>
        && e.Error? && e.code == -32601
        && (forall v :: r.id.Some? && StandsFor(r.id.value, v) ==> e.id == if v < 0 then v + 0x1_0000_0000 else v)
        && (r.id.Some? && StandsForNothing(r.id.value) ==> e.id == 0)
      case Synchronous(a) => e == a
      case Asynchronous => e == if answer.Parsed? then answer.entry else Error(0, -32603)
  }

  lemma IdIsKept(id: Id, v: int)
    requires StandsFor(id, v)
    ensures GetId(id) == Some(if v < 0 then v + 0x1_0000_0000 else v)
  {
    hide Stoi, Spells;
    if id.Text? { StoiExact(id.text, v); }
    Wrapped(v);
  }

  lemma Wrapped(v: int)
    requires -0x8000_0000 <= v < 0x1_0000_0000
    ensures v % 0x1_0000_0000 == if v < 0 then v + 0x1_0000_0000 else v
  {
  }

  lemma NothingIsZero(id: Id)
    ensures StandsForNothing(id) ==> GetId(id) == Some(0)
  {
  }

  /** The answer to a request is the right one. */
  lemma RightAnswer(r: Request, answer: Answer)
    requires !(r.isObject && r.name.Some? && r.id.None?)
    ensures Added(r, answer) != [] && RightEntry(r, answer, Added(r, answer)[0])
  {
    hide GetId, StandsFor, StandsForNothing;
    if r.id.Some? {
      NothingIsZero(r.id.value);
      forall v | StandsFor(r.id.value, v) ensures GetId(r.id.value) == Some(if v < 0 then v + 0x1_0000_0000 else v) {
        IdIsKept(r.id.value, v);
      }
    }
  }

  /** The answer to request k stands behind those to the requests before it that are no notifications, and it is the right one. */
  lemma {:induction false} EntryOfRequest(batch: seq<Request>, answers: nat -> Answer, n: nat, k: nat)
    requires k < n <= |batch| && !(batch[k].isObject && batch[k].name.Some? && batch[k].id.None?)
    ensures var p, entries := k - Notifications(batch, k), Expected(batch, answers, n);
            p < |entries| && RightEntry(batch[k], answers(k), entries[p])
  {
    hide Expected, Added, RightEntry, IsNotification, IsAwaited, Notifications;
    OneMore(batch, answers, n - 1);
    if k < n - 1 {
      EntryOfRequest(batch, answers, n - 1, k);
    } else {
      RightAnswer(batch[k], answers(k));
      ExpectedSize(batch, answers, k);
    }
  }

  lemma {:induction false} ExpectedSize(batch: seq<Request>, answers: nat -> Answer, n: nat)
    requires n <= |batch|
    ensures |Expected(batch, answers, n)| == n - Notifications(batch, n)
  {
    if n > 0 { ExpectedSize(batch, answers, n - 1); }
  }

  /** The answers of requests, in the order in which they come. */
  function Entries(order: seq<nat>, answers: nat -> Answer): (r: seq<Entry>)
    ensures |r| == |order|
  {
    if order == [] then [] else Entries(order[..|order| - 1], answers) + [EntryOf(answers(order[|order| - 1]))]
  }

  lemma EntriesSnoc(order: seq<nat>, k: nat, answers: nat -> Answer)
    ensures Entries(order + [k], answers) == Entries(order, answers) + [EntryOf(answers(k))]
  {
    assert (order + [k])[..|order|] == order;
  }

  lemma BagSnoc<T>(list: seq<T>, x: T)
    ensures multiset(list + [x]) == multiset(list) + multiset{x}
  {
  }

  lemma BagWithout<T>(list: seq<T>, k: nat)
    requires k < |list|
    ensures multiset(list) == multiset(list[..k] + list[k + 1..]) + multiset{list[k]}
  {
    assert list == list[..k] + ([list[k]] + list[k + 1..]);
  }

  lemma BagCancel<T>(a: multiset<T>, b: multiset<T>, x: T)
    requires a + multiset{x} == b + multiset{x}
    ensures a == b
  {
    assert a == a + multiset{x} - multiset{x};
  }

  /** Requests that are no notification are answered at once or later. */
  lemma {:induction false} Partition(batch: seq<Request>, n: nat)
    requires n <= |batch|
    ensures |AtOnce(batch, n)| + |Awaited(batch, n)| + Notifications(batch, n) == n
  {
    if n > 0 { Partition(batch, n - 1); }
  }

  lemma NothingProcessed(batch: seq<Request>)
    ensures AtOnce(batch, 0) == [] && Notifications(batch, 0) == 0 && Awaited(batch, 0) == [] && (batch == [] ==> Reached(batch, 0) == 0)
  {
  }

  lemma OneProcessed(batch: seq<Request>, k: nat)
    requires k < |batch|
    ensures Reached(batch, k) == if Throws(batch[k]) then k else Reached(batch, k + 1)
    ensures Notifications(batch, k + 1) == Notifications(batch, k) + if IsNotification(batch[k]) then 1 else 0
    ensures AtOnce(batch, k + 1) ==
            AtOnce(batch, k) + if IsNotification(batch[k]) || IsAwaited(batch[k]) then [] else [Immediate(batch[k])]
  {
  }

  /** What one more request adds. */
  lemma OneMore(batch: seq<Request>, answers: nat -> Answer, n: nat)
    requires n < |batch|
    ensures Expected(batch, answers, n + 1) == Expected(batch, answers, n) + Added(batch[n], answers(n))
    ensures AtOnce(batch, n + 1) == AtOnce(batch, n) + if IsAwaited(batch[n]) then [] else Added(batch[n], answers(n))
    ensures Awaited(batch, n + 1) == Awaited(batch, n) + if IsAwaited(batch[n]) then [n] else []
  {
  }

  function Added(r: Request, answer: Answer): (e: seq<Entry>)
    ensures IsAwaited(r) ==> e == [EntryOf(answer)]
  {
    if IsNotification(r) then [] else [if IsAwaited(r) then EntryOf(answer) else Immediate(r)]
  }

  /** The entries of a batch are those made at once and those that come later. */
  ghost predicate AllEntries(expected: seq<Entry>, atOnce: seq<Entry>, later: seq<Entry>) {
    multiset(expected) == multiset(atOnce) + multiset(later)
  }

  lemma OneMoreLater(expected: seq<Entry>, atOnce: seq<Entry>, later: seq<Entry>, added: seq<Entry>)
    requires AllEntries(expected, atOnce, later)
    ensures AllEntries(expected + added, atOnce, later + added) && AllEntries(expected + added, atOnce + added, later)
  {
    BagConcat(expected, added);
    BagConcat(later, added);
    BagConcat(atOnce, added);
  }

  lemma NothingExpected(batch: seq<Request>, answers: nat -> Answer)
    ensures AllEntries(Expected(batch, answers, 0), AtOnce(batch, 0), Entries(Awaited(batch, 0), answers))
  {
  }

  lemma {:induction false} ExpectedIsAll(batch: seq<Request>, answers: nat -> Answer, n: nat)
    requires n <= |batch|
    ensures AllEntries(Expected(batch, answers, n), AtOnce(batch, n), Entries(Awaited(batch, n), answers))
  {
    hide Expected, AtOnce, Awaited, Entries, Added, AllEntries;
    if n == 0 {
      NothingExpected(batch, answers);
    } else {
      ExpectedIsAll(batch, answers, n - 1);
      OneMore(batch, answers, n - 1);
      var added := Added(batch[n - 1], answers(n - 1));
      var expected, atOnce, awaited := Expected(batch, answers, n - 1), AtOnce(batch, n - 1), Awaited(batch, n - 1);
      OneMoreLater(expected, atOnce, Entries(awaited, answers), added);
      if IsAwaited(batch[n - 1]) {
        EntriesSnoc(awaited, n - 1, answers);
        assert atOnce + [] == atOnce;
      } else {
        assert awaited + [] == awaited;
      }
    }
  }

  /** The same answers in another order. */
  lemma {:induction false} Reordered(a: seq<nat>, b: seq<nat>, answers: nat -> Answer)
    requires multiset(a) == multiset(b)
    ensures multiset(Entries(a, answers)) == multiset(Entries(b, answers)) && |a| == |b|
    decreases |a|
  {
    hide Entries;
    assert |a| == |multiset(a)| && |b| == |multiset(b)|;
    if a == [] {
      assert b == [];
    } else {
      var init, last := a[..|a| - 1], a[|a| - 1];
      assert a == init + [last] && last in multiset(a);
      var k :| 0 <= k < |b| && b[k] == last;
      var rest := b[..k] + b[k + 1..];
      BagSnoc(init, last);
      BagWithout(b, k);
      BagCancel(multiset(init), multiset(rest), last);
      Reordered(init, rest, answers);
      EntriesSnoc(init, last, answers);
      BagSnoc(Entries(init, answers), EntryOf(answers(last)));
      EntriesWithout(b, k, answers);
    }
  }

  lemma {:induction false} EntriesWithout(order: seq<nat>, k: nat, answers: nat -> Answer)
    requires k < |order|
    ensures multiset(Entries(order, answers)) ==
            multiset(Entries(order[..k] + order[k + 1..], answers)) + multiset{EntryOf(answers(order[k]))}
    decreases |order|
  {
    hide Entries;
    var n := |order| - 1;
    var init, last := order[..n], order[n];
    assert order == init + [last];
    EntriesSnoc(init, last, answers);
    BagSnoc(Entries(init, answers), EntryOf(answers(last)));
    if k == n {
      assert order[..k] + order[k + 1..] == init;
    } else {
      EntriesWithout(init, k, answers);
      var rest := init[..k] + init[k + 1..];
      assert order[..k] + order[k + 1..] == rest + [last];
      EntriesSnoc(rest, last, answers);
      BagSnoc(Entries(rest, answers), EntryOf(answers(last)));
    }
  }

  // ---------------------------------------------------------------------------------------------
  // The collector
  // ---------------------------------------------------------------------------------------------

  class Collector {
    var size: nat
    var result: seq<Entry>
    var sent: seq<Message>

    constructor ()
      ensures size == 0 && result == [] && sent == []
    {
      size, result, sent := 0, [], [];
    }

    /** The entries are sent when there are as many as requests to be answered. */
    method SendIfComplete()
      modifies this`sent
      ensures sent == old(sent) + if size == |result| then [Responses(result)] else []
    {
      if size == |result| {
        sent := sent + [Responses(result)];
      }
    }

    /** process. An exception ends it, and with it the sending, but what was counted stays counted. */
    method Process(batch: seq<Request>)
      requires result == [] && sent == []
      modifies this
      ensures var stop := Reached(batch, 0);
              && result == AtOnce(batch, stop) && size == |batch| - Notifications(batch, stop)
              && size == |AtOnce(batch, stop)| + |Awaited(batch, stop)| + (|batch| - stop)
              && sent == if batch == [] then [InvalidBatch] else if Awaited(batch, stop) == [] && stop == |batch| then [Responses(result)] else []
    {
      hide *;
      size := |batch|;
      Partition(batch, Reached(batch, 0));
      NothingProcessed(batch);
      if size == 0 {
        sent := sent + [InvalidBatch];
        return;
      }
      var k: nat := 0;
      while k < |batch|
        invariant k <= |batch| && result == AtOnce(batch, k) && size == |batch| - Notifications(batch, k) && sent == []
        invariant Reached(batch, 0) == Reached(batch, k)
      {
        OneProcessed(batch, k);
        var thrown := ProcessOne(batch, k);
        if thrown {
          return;
        }
        k := k + 1;
      }
      SendIfComplete();
    }

    /** One request of the batch. The count of answers never goes below zero. */
    method ProcessOne(batch: seq<Request>, k: nat) returns (thrown: bool)
      requires k < |batch| && size >= |batch| - k
      modifies this`result, this`size
      ensures thrown == Throws(batch[k]) && (thrown ==> size == old(size))
      ensures result == old(result) + if thrown || IsNotification(batch[k]) || IsAwaited(batch[k]) then [] else [Immediate(batch[k])]
      ensures size == old(size) - if IsNotification(batch[k]) then 1 else 0
    {
      hide GetId;
      var r := batch[k];
      thrown := false;
      if !r.isObject {
        result := result + [Error(0, INVALID_REQUEST)];
        return;
      }
      if r.name.None? {
        result := result + [Error(0, INVALID_REQUEST)];
        return;
      }
      if r.id.None? {
        size := size - 1;
        return;
      }
      match r.handling
      case NoHandler =>
        var id := GetId(r.id.value);
        if id.None? {
          return true;
        }
        result := result + [Error(id.value, METHOD_NOT_FOUND)];
      case Synchronous(answer) => result := result + [answer];
      case Asynchronous =>
    }

    /** send_json: an answer that comes later. */
    method SendJson(answer: Answer)
      requires |result| < size
      modifies this
      ensures result == old(result) + [EntryOf(answer)] && size == old(size)
      ensures sent == old(sent) + if size == |result| then [Responses(result)] else []
    {
      var entry: Entry;
      match answer {
        case Parsed(e) => entry := e;
        case Unparsable => entry := Error(0, INTERNAL_ERROR);
      }
      result := result + [entry];
      SendIfComplete();
    }

    /**
      A batch and the first `n` of the answers that it awaits, in any order. When all have come a single array has been
      sent, which holds one entry for each request that is no notification, if and only if no request throws. Nothing is
      sent before the last answer, and nothing is ever sent if a request throws.
     */
    method Collect(batch: seq<Request>, answers: nat -> Answer, order: seq<nat>, n: nat)
      requires result == [] && sent == [] && n <= |order|
      requires multiset(order) == multiset(Awaited(batch, Reached(batch, 0)))
      modifies this
      ensures result == AtOnce(batch, Reached(batch, 0)) + Entries(order[..n], answers)
      ensures batch == [] ==> sent == [InvalidBatch]
      ensures batch != [] && n == |order| ==>
                (AnsweredOnce(sent, Expected(batch, answers, |batch|)) <==> forall r | r in batch :: !Throws(r))
      ensures n < |order| || (exists r | r in batch :: Throws(r)) ==> sent == []
    {
      hide *;
      ghost var stop := Reached(batch, 0);
      AllReached(batch);
      SameCount(order, Awaited(batch, stop));
      Process(batch);
      ghost var first := result;
      TakeAnswers(order, answers, n);
      assert n == 0 ==> result == first;
      assert batch != [] ==> sent == if n == |order| && stop == |batch| then [Responses(result)] else [];
      if n == |order| && stop == |batch| { AllAnswered(batch, answers, order, result); }
      if batch != [] { Answered(sent, result, Expected(batch, answers, |batch|)); }
    }

    /** The first n answers, of which there are no more than entries missing. */
    method TakeAnswers(order: seq<nat>, answers: nat -> Answer, n: nat)
      requires n <= |order| && |result| + |order| <= size
      modifies this
      ensures result == old(result) + Entries(order[..n], answers) && size == old(size)
      ensures sent == old(sent) + if 0 < n && size == |result| then [Responses(result)] else []
    {
      hide Entries, EntryOf;
      NoEntries(answers);
      var k: nat := 0;
      while k < n
        invariant k <= n && size == old(size) && result == old(result) + Entries(order[..k], answers)
        invariant sent == old(sent) + if 0 < k && size == |result| then [Responses(result)] else []
      {
        assert order[..k + 1] == order[..k] + [order[k]];
        EntriesSnoc(order[..k], order[k], answers);
        SendJson(answers(order[k]));
        k := k + 1;
      }
    }
  }

  /** A single array was sent, and the entries in it are those that were expected. */
  ghost predicate AnsweredOnce(sent: seq<Message>, expected: seq<Entry>) {
    |sent| == 1 && sent[0].Responses? && multiset(sent[0].entries) == multiset(expected)
  }

  lemma AllReached(batch: seq<Request>)
    ensures Reached(batch, 0) == |batch| <==> forall r | r in batch :: !Throws(r)
  {
    hide Throws;
  }

  lemma SameCount(a: seq<nat>, b: seq<nat>)
    requires multiset(a) == multiset(b)
    ensures |a| == |b|
  {
    assert |a| == |multiset(a)| && |b| == |multiset(b)|;
  }

  /** The entries made at once and all the answers are the entries that were expected. */
  lemma AllAnswered(batch: seq<Request>, answers: nat -> Answer, order: seq<nat>, result: seq<Entry>)
    requires multiset(order) == multiset(Awaited(batch, |batch|)) && result == AtOnce(batch, |batch|) + Entries(order[..|order|], answers)
    ensures multiset(result) == multiset(Expected(batch, answers, |batch|))
  {
    hide Expected, AtOnce, Awaited, Entries;
    assert order[..|order|] == order;
    ExpectedIsAll(batch, answers, |batch|);
    Reordered(order, Awaited(batch, |batch|), answers);
    BagConcat(AtOnce(batch, |batch|), Entries(order, answers));
  }

  lemma Answered(sent: seq<Message>, result: seq<Entry>, expected: seq<Entry>)
    ensures sent == [Responses(result)] && multiset(result) == multiset(expected) ==> AnsweredOnce(sent, expected)
    ensures sent == [] ==> !AnsweredOnce(sent, expected)
  {
  }

  lemma NoEntries(answers: nat -> Answer)
    ensures Entries([], answers) == []
  {
  }

  lemma BagConcat<T>(a: seq<T>, b: seq<T>)
    ensures multiset(a + b) == multiset(a) + multiset(b)
  {
  }

  /** A batch of one notification is answered, with an empty array. */
  method AnswerNotification() returns (sent: seq<Message>)
    ensures sent == [Responses([])]
  {
    var batch := [Request(true, Some("fetch-balance"), None, NoHandler)];
    var c := new Collector();
    assert AtOnce(batch, 0) == [] && Awaited(batch, 0) == [];
    c.Process(batch);
    sent := c.sent;
  }

  /** A request for an unknown method with the id 7 is answered with that id. */
  method AnswerUnknown() returns (sent: seq<Message>)
    ensures sent == [Responses([Error(7, -32601)])]
  {
    var batch := [Request(true, Some("nope"), Some(Number(7)), NoHandler)];
    var c := new Collector();
    assert AtOnce(batch, 0) == [] && Awaited(batch, 0) == [] && AtOnce(batch, 1) == [Immediate(batch[0])];
    c.Process(batch);
    sent := c.sent;
  }

  /** A batch of one request for a method without handler is never answered when its id is a text that is no int. */
  method NeverAnswered() returns (sent: seq<Message>)
    ensures sent == []
  {
    var batch := [Request(true, Some("fetch-history-filter"), Some(Text("9999999999")), NoHandler)];
    TenNines();
    var c := new Collector();
    assert Throws(batch[0]);
    c.Process(batch);
    sent := c.sent;
  }
}
