/**
  The pool of connections of connection_pool.cpp. The nodes of its two lists keep their identity when they move from one
  list to the other, which is what the iterators that clients hold rely on. Every operation runs under the pool's lock, so
  a run is a sequence of operations in any order.
 */
module SocketPool {
  import opened Wrappers
  import opened Sequences

  type Host = string
  type Id = nat

  const NO_HANDLE := -1

  /** An entry: the host, the descriptor of a connection to it or NO_HANDLE, and the time at which it expires. */
  datatype Node = Node(host: Host, handle: int, expires: int)

  /**
    The lists hold the identities of nodes. `live` is the host each open descriptor is connected to, `lost` the descriptors
    that could not be closed, and `holder` the client that holds a busy node; they are there to state what the pool guarantees.
   */
  datatype State = State(
    nodes: map<Id, Node>, ready: seq<Id>, busy: seq<Id>, capacity: nat, enabled: bool, next: Id,
    live: map<int, Host>, lost: set<int>, holder: map<Id, nat>)

  // ---------------------------------------------------------------------------------------------
  // Operations
  // ---------------------------------------------------------------------------------------------

  /** The index of the first ready node for the host, from index k on. */
  function FirstFor(s: State, host: Host, k: nat): (r: Option<nat>)
    requires k <= |s.ready| && forall i | i in s.ready :: i in s.nodes
    ensures r.Some? ==> k <= r.value < |s.ready| && s.nodes[s.ready[r.value]].host == host
    ensures r.Some? ==> forall j | k <= j < r.value :: s.nodes[s.ready[j]].host != host
    ensures r.None? ==> forall j | k <= j < |s.ready| :: s.nodes[s.ready[j]].host != host
    decreases |s.ready| - k
  {
    if k == |s.ready| then None
    else if s.nodes[s.ready[k]].host == host then Some(k)
    else FirstFor(s, host, k + 1)
  }

  function Without(list: seq<Id>, k: nat): (r: seq<Id>)
    requires k < |list|
  {
    list[..k] + list[k + 1..]
  }

  /** A ready node goes to the client. */
  function Reused(s: State, k: nat, client: nat): (r: State)
    requires k < |s.ready|
  {
    var id := s.ready[k];
    s.(ready := Without(s.ready, k), busy := [id] + s.busy, holder := s.holder[id := client])
  }

  /** A new node goes to the client. */
  function Created(s: State, host: Host, client: nat): (r: State) {
    s.(nodes := s.nodes[s.next := Node(host, NO_HANDLE, 0)], busy := [s.next] + s.busy, next := s.next + 1,
       holder := s.holder[s.next := client])
  }

  /** checkout: a ready node for the host, or a new one while there is room; the node it gives is held by the client. */
  function CheckedOut(s: State, host: Host, client: nat): (r: (State, Option<Id>))
    requires Inv(s)
  {
    if !s.enabled then (s, None)
    else match FirstFor(s, host, 0)
      case Some(k) => (Reused(s, k, client), Some(s.ready[k]))
      case None =>
        if s.capacity > |s.busy| + |s.ready| then (Created(s, host, client), Some(s.next)) else (s, None)
  }

  /** The client of a busy node opens a connection to its host. */
  function Opened(s: State, id: Id, handle: int): (r: State)
    requires id in s.nodes
  {
    s.(nodes := s.nodes[id := s.nodes[id].(handle := handle)], live := s.live[handle := s.nodes[id].host])
  }

  /** The client of a busy node closes the connection. */
  function Closed(s: State, id: Id): (r: State)
    requires id in s.nodes
  {
    s.(nodes := s.nodes[id := s.nodes[id].(handle := NO_HANDLE)], live := s.live - {s.nodes[id].handle})
  }

  /** The index of a node in a list, from index k on. */
  function Find(list: seq<Id>, id: Id, k: nat): (r: Option<nat>)
    requires k <= |list|
    ensures r.Some? ==> k <= r.value < |list| && list[r.value] == id
    ensures r.None? ==> id !in list[k..]
    decreases |list| - k
  {
    if k == |list| then None else if list[k] == id then Some(k) else Find(list, id, k + 1)
  }

  /** A busy node goes away. */
  function Dropped(s: State, k: nat): (r: State)
    requires k < |s.busy|
  {
    s.(nodes := s.nodes - {s.busy[k]}, busy := Without(s.busy, k), holder := s.holder - {s.busy[k]})
  }

  /** A busy node becomes ready. */
  function Returned(s: State, k: nat, expires: int): (r: State)
    requires k < |s.busy| && s.busy[k] in s.nodes
  {
    var id := s.busy[k];
    s.(nodes := s.nodes[id := s.nodes[id].(expires := expires)], busy := Without(s.busy, k), ready := [id] + s.ready,
       holder := s.holder - {id})
  }

  /** checkin: the node becomes ready until the time `expires`, or goes away when it has no connection. */
  function CheckedIn(s: State, id: Id, expires: int): (r: State)
    requires Inv(s)
  {
    match Find(s.busy, id, 0)
    case None => s
    case Some(k) =>
      if s.nodes[id].handle == NO_HANDLE then Dropped(s, k) else Returned(s, k, expires)
  }

  /** The nodes of a list that are not in `gone`. */
  function Kept(list: seq<Id>, gone: set<Id>): (r: seq<Id>)
    ensures |r| <= |list|
    ensures forall i :: i in r <==> i in list && i !in gone
    decreases |list|
  {
    if list == [] then []
    else
      var rest := Kept(list[1..], gone);
      if list[0] in gone then rest else [list[0]] + rest
  }

  /** The first k ready nodes that have expired. */
  function Expired(s: State, now: int, k: nat): (r: set<Id>)
    requires k <= |s.ready| && forall i | i in s.ready :: i in s.nodes
    ensures forall i :: i in r <==> i in s.ready[..k] && s.nodes[i].expires <= now
    decreases k
  {
    if k == 0 then {}
    else
      var id := s.ready[k - 1];
      assert s.ready[..k] == s.ready[..k - 1] + [id];
      Expired(s, now, k - 1) + if s.nodes[id].expires <= now then {id} else {}
  }

  /** The connections of nodes. */
  function HandlesOf(nodes: map<Id, Node>, ids: set<Id>): (r: set<int>) {
    set i | i in ids && i in nodes :: nodes[i].handle
  }

  /** The sweep: expired nodes go away and their connections are closed, all but those that are stuck. */
  function Swept(s: State, now: int, stuck: set<int>): (r: State)
    requires Inv(s)
  {
    Removed(s, Expired(s, now, |s.ready|), stuck)
  }

  function Removed(s: State, gone: set<Id>, stuck: set<int>): (r: State) {
    var handles := HandlesOf(s.nodes, gone);
    s.(nodes := s.nodes - gone, ready := Kept(s.ready, gone), live := s.live - (handles - stuck), lost := s.lost + handles * stuck)
  }

  // ---------------------------------------------------------------------------------------------
  // What every operation keeps
  // ---------------------------------------------------------------------------------------------

  /** The nodes are those of the two lists, each in one place. */
  ghost predicate Lists(s: State) {
    && NoDuplicates(s.ready) && NoDuplicates(s.busy)
    && (forall i :: i in s.nodes <==> i in s.ready || i in s.busy)
    && (forall i | i in s.ready :: i !in s.busy)
    && (forall i | i in s.nodes :: i < s.next)
  }

  /** A node's connection is open, to the node's host, and no other node's. */
  ghost predicate Handles(s: State) {
    && (forall i | i in s.nodes && s.nodes[i].handle != NO_HANDLE :: s.nodes[i].handle in s.live && s.live[s.nodes[i].handle] == s.nodes[i].host)
    && (forall i, j | i in s.nodes && j in s.nodes && i != j && s.nodes[i].handle != NO_HANDLE :: s.nodes[i].handle != s.nodes[j].handle)
    && (forall i | i in s.ready && i in s.nodes :: s.nodes[i].handle != NO_HANDLE)
    && NO_HANDLE !in s.live
  }

  /** Every open connection belongs to a node, or could not be closed. */
  ghost predicate NoLeak(s: State) {
    forall h | h in s.live && h !in s.lost :: exists i :: i in s.nodes && s.nodes[i].handle == h
  }

  ghost predicate Inv(s: State) {
    && Lists(s) && Handles(s) && NoLeak(s)
    && |s.ready| + |s.busy| <= s.capacity
    && (forall i :: i in s.holder <==> i in s.busy)
  }

  lemma WithoutKeeps(list: seq<Id>, k: nat)
    requires k < |list| && NoDuplicates(list)
    ensures NoDuplicates(Without(list, k)) && forall i :: i in Without(list, k) <==> i in list && i != list[k]
  {
    var r := Without(list, k);
    forall i | i in list && i != list[k] ensures i in r {
      var j :| 0 <= j < |list| && list[j] == i;
      assert if j < k then r[j] == i else r[j - 1] == i;
    }
  }

  lemma PushKeeps(list: seq<Id>, id: Id)
    requires NoDuplicates(list) && id !in list
    ensures NoDuplicates([id] + list)
  {
  }

  /** A state with the same nodes and connections. */
  lemma SameNoLeak(s: State, t: State)
    requires NoLeak(s) && t.nodes == s.nodes && t.live == s.live && t.lost == s.lost
    ensures NoLeak(t)
  {
  }

  lemma {:induction false} KeptNoDuplicates(list: seq<Id>, gone: set<Id>)
    requires NoDuplicates(list)
    ensures NoDuplicates(Kept(list, gone))
    decreases |list|
  {
    if list != [] {
      assert forall i | i in list[1..] :: i != list[0];
      KeptNoDuplicates(list[1..], gone);
    }
  }

  lemma ReuseKeeps(s: State, k: nat, client: nat)
    requires Inv(s) && k < |s.ready|
    ensures Inv(Reused(s, k, client))
  {
    hide NoDuplicates, NoLeak;
    WithoutKeeps(s.ready, k);
    PushKeeps(s.busy, s.ready[k]);
    SameNoLeak(s, Reused(s, k, client));
    hide Without;
  }

  lemma CreateKeeps(s: State, host: Host, client: nat)
    requires Inv(s) && s.capacity > |s.busy| + |s.ready|
    ensures Inv(Created(s, host, client))
  {
    hide NoLeak, Handles;
    CreateLists(s, host, client);
    CreateHandles(s, host, client);
    NewNoLeak(s, Created(s, host, client));
    hide Lists;
  }

  lemma CreateLists(s: State, host: Host, client: nat)
    requires Lists(s)
    ensures Lists(Created(s, host, client))
  {
    PushKeeps(s.busy, s.next);
    hide NoDuplicates;
  }

  lemma CreateHandles(s: State, host: Host, client: nat)
    requires Handles(s) && Lists(s)
    ensures Handles(Created(s, host, client))
  {
    hide NoDuplicates;
  }

  /** What checkout gives for the host, `t` being the state after it. */
  ghost predicate Given(s: State, t: State, id: Id, host: Host, client: nat) {
    && id !in s.holder && id in t.holder && t.holder[id] == client
    && id in t.nodes && t.nodes[id].host == host
    && (t.nodes[id].handle != NO_HANDLE ==> t.nodes[id].handle in t.live && t.live[t.nodes[id].handle] == host)
  }

  lemma ReuseGives(s: State, k: nat, client: nat)
    requires Inv(s) && k < |s.ready|
    ensures Given(s, Reused(s, k, client), s.ready[k], s.nodes[s.ready[k]].host, client)
  {
  }

  lemma CreateGives(s: State, host: Host, client: nat)
    requires Inv(s)
    ensures Given(s, Created(s, host, client), s.next, host, client)
  {
  }

  /** No node can be given for the host. */
  ghost predicate Refused(s: State, host: Host) {
    !s.enabled || (|s.busy| + |s.ready| == s.capacity && forall i | i in s.ready && i in s.nodes :: s.nodes[i].host != host)
  }

  /**
    checkout keeps the invariant. What it gives was held by nobody; its connection, if it has one, is open and goes to the
    host asked for; and it gives nothing only when the pool is full and has no node for the host, or is disabled.
   */
  lemma CheckoutKeeps(s: State, host: Host, client: nat)
    requires Inv(s)
    ensures var (t, r) := CheckedOut(s, host, client);
            && Inv(t)
            && (r.Some? ==> Given(s, t, r.value, host, client))
            && (r.None? <==> Refused(s, host))
            && (r.None? ==> t == s)
  {
    if s.enabled && FirstFor(s, host, 0).Some? {
      ReuseKeeps(s, FirstFor(s, host, 0).value, client);
      ReuseGives(s, FirstFor(s, host, 0).value, client);
    } else if s.enabled && s.capacity > |s.busy| + |s.ready| {
      CreateKeeps(s, host, client);
      CreateGives(s, host, client);
    }
    hide Given, Handles, NoLeak;
  }

  lemma NewNoLeak(s: State, t: State)
    requires NoLeak(s) && t.live == s.live && t.lost == s.lost && forall i | i in s.nodes :: i in t.nodes && t.nodes[i].handle == s.nodes[i].handle
    ensures NoLeak(t)
  {
  }

  lemma OpenKeeps(s: State, id: Id, handle: int)
    requires Inv(s) && id in s.busy && s.nodes[id].handle == NO_HANDLE && handle != NO_HANDLE && handle !in s.live
    ensures Inv(Opened(s, id, handle))
  {
    OpenNoLeak(s, id, handle);
    hide NoLeak, NoDuplicates;
  }

  lemma OpenNoLeak(s: State, id: Id, handle: int)
    requires NoLeak(s) && NO_HANDLE !in s.live && id in s.nodes && s.nodes[id].handle == NO_HANDLE
    ensures NoLeak(Opened(s, id, handle))
  {
    var t := Opened(s, id, handle);
    forall h | h in t.live && h !in t.lost ensures exists i :: i in t.nodes && t.nodes[i].handle == h {
      if h == handle {
        assert t.nodes[id].handle == h;
      } else {
        var i :| i in s.nodes && s.nodes[i].handle == h;
        assert i != id && t.nodes[i].handle == h;
      }
    }
  }

  lemma CloseKeeps(s: State, id: Id)
    requires Inv(s) && id in s.busy && s.nodes[id].handle != NO_HANDLE
    ensures Inv(Closed(s, id))
  {
  }

  lemma DropKeeps(s: State, k: nat)
    requires Inv(s) && k < |s.busy| && s.nodes[s.busy[k]].handle == NO_HANDLE
    ensures Inv(Dropped(s, k))
  {
    hide NoDuplicates, NoLeak;
    WithoutKeeps(s.busy, k);
    EraseNoLeak(s, Dropped(s, k), s.busy[k]);
    hide Without;
  }

  lemma ReturnKeeps(s: State, k: nat, expires: int)
    requires Inv(s) && k < |s.busy| && s.nodes[s.busy[k]].handle != NO_HANDLE
    ensures Inv(Returned(s, k, expires))
  {
    hide NoDuplicates, NoLeak;
    WithoutKeeps(s.busy, k);
    PushKeeps(s.ready, s.busy[k]);
    NewNoLeak(s, Returned(s, k, expires));
    hide Without;
  }

  /**
    checkin keeps the invariant. A busy node that has a connection becomes the first ready one, with that connection, until the
    time `expires`; one that has none goes away; and nothing happens to a node that is not busy. No other node changes.
   */
  lemma CheckinKeeps(s: State, id: Id, expires: int)
    requires Inv(s)
    ensures var t := CheckedIn(s, id, expires);
            && Inv(t) && id !in t.holder && id !in t.busy
            && (id !in s.busy ==> t == s)
            && (id in s.busy && s.nodes[id].handle != -1 ==>
                  t.ready == [id] + s.ready && t.nodes == s.nodes[id := Node(s.nodes[id].host, s.nodes[id].handle, expires)])
            && (id in s.busy && s.nodes[id].handle == -1 ==> t.ready == s.ready && t.nodes == s.nodes - {id})
            && t.live == s.live && t.next == s.next && t.enabled == s.enabled
  {
    var f := Find(s.busy, id, 0);
    if f.Some? {
      if s.nodes[id].handle == NO_HANDLE {
        DropKeeps(s, f.value);
      } else {
        ReturnKeeps(s, f.value, expires);
      }
    } else {
      assert s.busy[0..] == s.busy;
    }
    hide NoDuplicates, NoLeak, Without, Handles, Lists;
  }

  lemma EraseNoLeak(s: State, t: State, id: Id)
    requires NoLeak(s) && NO_HANDLE !in s.live && id in s.nodes && s.nodes[id].handle == NO_HANDLE
    requires t.live == s.live && t.lost == s.lost && t.nodes == s.nodes - {id}
    ensures NoLeak(t)
  {
    forall h | h in t.live && h !in t.lost ensures exists i :: i in t.nodes && t.nodes[i].handle == h {
      var i :| i in s.nodes && s.nodes[i].handle == h;
      assert i in t.nodes && t.nodes[i].handle == h;
    }
  }

  lemma SweepKeeps(s: State, now: int, stuck: set<int>)
    requires Inv(s)
    ensures Inv(Swept(s, now, stuck))
    ensures forall i | i in s.busy :: i in Swept(s, now, stuck).busy && Swept(s, now, stuck).nodes[i] == s.nodes[i]
    ensures forall i | i in Swept(s, now, stuck).ready :: now < Swept(s, now, stuck).nodes[i].expires
    ensures Swept(s, now, stuck).lost <= s.lost + stuck
  {
    assert s.ready[..|s.ready|] == s.ready;
    RemovedKeeps(s, Expired(s, now, |s.ready|), stuck);
    hide Inv;
  }

  lemma RemovedKeeps(s: State, gone: set<Id>, stuck: set<int>)
    requires Inv(s) && forall i | i in gone :: i in s.ready
    ensures Inv(Removed(s, gone, stuck))
  {
    RemovedLists(s, gone, stuck);
    RemovedHandles(s, gone, stuck);
    RemovedNoLeak(s, gone, stuck);
    hide Lists, Handles, NoLeak;
  }

  lemma RemovedLists(s: State, gone: set<Id>, stuck: set<int>)
    requires Lists(s) && forall i | i in gone :: i in s.ready
    ensures Lists(Removed(s, gone, stuck))
  {
    KeptNoDuplicates(s.ready, gone);
    hide NoDuplicates, HandlesOf;
  }

  lemma RemovedHandles(s: State, gone: set<Id>, stuck: set<int>)
    requires Handles(s)
    ensures Handles(Removed(s, gone, stuck))
  {
  }

  lemma RemovedNoLeak(s: State, gone: set<Id>, stuck: set<int>)
    requires NoLeak(s)
    ensures NoLeak(Removed(s, gone, stuck))
  {
    var t := Removed(s, gone, stuck);
    forall h | h in t.live && h !in t.lost ensures exists i :: i in t.nodes && t.nodes[i].handle == h {
      var i :| i in s.nodes && s.nodes[i].handle == h;
      assert i in t.nodes;
    }
  }

  // ---------------------------------------------------------------------------------------------
  // Runs
  // ---------------------------------------------------------------------------------------------

  datatype Event =
    | Checkout(host: Host, client: nat)
    | Open(id: Id, handle: int)
    | Close(id: Id)
    | Checkin(id: Id, expires: int)
    | Sweep(now: int, stuck: set<int>)

  function Empty(capacity: nat): (s: State) {
    State(map[], [], [], capacity, true, 0, map[], {}, map[])
  }

  /** Clients open and close only what they hold, and a descriptor that is opened is not open already. */
  predicate Enabled(s: State, e: Event) {
    match e
    case Open(id, handle) =>
      id in s.busy && id in s.nodes && s.nodes[id].handle == NO_HANDLE && handle != NO_HANDLE && handle !in s.live
    case Close(id) => id in s.busy && id in s.nodes && s.nodes[id].handle != NO_HANDLE
    case _ => true
  }

  ghost function Step(s: State, e: Event): (t: State)
    requires Inv(s) && Enabled(s, e)
    ensures Inv(t) && t.capacity == s.capacity
  {
    hide Inv;
    match e
    case Checkout(host, client) => CheckoutKeeps(s, host, client); CheckedOut(s, host, client).0
    case Open(id, handle) => OpenKeeps(s, id, handle); Opened(s, id, handle)
    case Close(id) => CloseKeeps(s, id); Closed(s, id)
    case Checkin(id, expires) => CheckinKeeps(s, id, expires); CheckedIn(s, id, expires)
    case Sweep(now, stuck) => SweepKeeps(s, now, stuck); Swept(s, now, stuck)
  }

  /** The events lead from a state to another. */
  ghost predicate Leads(s: State, events: seq<Event>, t: State)
    requires Inv(s)
    decreases |events|
  {
    if events == [] then s == t else Enabled(s, events[0]) && Leads(Step(s, events[0]), events[1..], t)
  }

  lemma {:induction false} RunKeeps(s: State, events: seq<Event>, t: State)
    requires Inv(s) && Leads(s, events, t)
    ensures Inv(t) && t.capacity == s.capacity
    decreases |events|
  {
    hide Inv, Step, Enabled;
    if events != [] { RunKeeps(Step(s, events[0]), events[1..], t); }
  }

  /**
    Over every interleaving of the operations: no node is both ready and busy, the pool never holds more nodes than its
    capacity, every busy node has one holder, every ready node has an open connection to its own host that no other node
    has, and no open connection is lost but those that could not be closed.
   */
  lemma EveryRun(capacity: nat, events: seq<Event>, t: State)
    requires Leads(Empty(capacity), events, t)
    ensures |t.ready| + |t.busy| <= capacity
    ensures forall i | i in t.ready :: i !in t.busy && i !in t.holder
    ensures forall i :: i in t.busy <==> i in t.holder
    ensures forall i | i in t.ready :: i in t.nodes && t.nodes[i].handle in t.live && t.live[t.nodes[i].handle] == t.nodes[i].host
    ensures forall i, j | i in t.ready && j in t.nodes && i != j :: i in t.nodes && t.nodes[i].handle != t.nodes[j].handle
    ensures forall h | h in t.live && h !in t.lost :: exists i :: i in t.nodes && t.nodes[i].handle == h
  {
    RunKeeps(Empty(capacity), events, t);
  }

  // ---------------------------------------------------------------------------------------------
  // How long a connection is kept
  // ---------------------------------------------------------------------------------------------

  /** No checkout of the run gives the node. */
  ghost predicate Untaken(s: State, events: seq<Event>, id: Id)
    requires Inv(s)
    decreases |events|
  {
    events != [] && Enabled(s, events[0]) ==> !Takes(s, events[0], id) && Untaken(Step(s, events[0]), events[1..], id)
  }

  ghost predicate Takes(s: State, e: Event, id: Id)
    requires Inv(s)
  {
    e.Checkout? && CheckedOut(s, e.host, e.client).1 == Some(id)
  }

  ghost predicate SweptBefore(events: seq<Event>, time: int) {
    forall x | x in events && x.Sweep? :: x.now < time
  }

  lemma CheckoutLeaves(s: State, host: Host, client: nat, id: Id)
    requires Inv(s) && id in s.ready && !Takes(s, Checkout(host, client), id)
    ensures var t := CheckedOut(s, host, client).0; id in t.ready && id in t.nodes && t.nodes[id] == s.nodes[id]
  {
    hide NoLeak, Handles;
    var f := FirstFor(s, host, 0);
    if s.enabled && f.Some? { WithoutKeeps(s.ready, f.value); }
  }

  lemma SweepDecides(s: State, now: int, stuck: set<int>, id: Id)
    requires Inv(s) && id in s.ready
    ensures var t := Swept(s, now, stuck);
            if now < s.nodes[id].expires then id in t.ready && id in t.nodes && t.nodes[id] == s.nodes[id]
            else id !in t.nodes && (s.nodes[id].handle in t.live ==> s.nodes[id].handle in stuck && s.nodes[id].handle in t.lost)
  {
    assert s.ready[..|s.ready|] == s.ready;
    hide NoLeak, Handles;
  }

  /** What one operation does to a ready node that it does not give out. */
  lemma ReadyStep(s: State, e: Event, id: Id)
    requires Inv(s) && Enabled(s, e) && id in s.ready && !Takes(s, e, id)
    ensures var t := Step(s, e);
            if e.Sweep? && s.nodes[id].expires <= e.now then id !in t.nodes
            else id in t.ready && id in t.nodes && t.nodes[id] == s.nodes[id]
  {
    match e
    case Checkout(host, client) => CheckoutLeaves(s, host, client, id);
    case Checkin(other, expires) => CheckinKeeps(s, other, expires);
    case Sweep(now, stuck) => SweepDecides(s, now, stuck, id);
    case _ =>
    hide NoLeak, Handles, Swept, CheckedOut, CheckedIn;
  }

  /** A node that is gone never comes back. */
  lemma GoneStep(s: State, e: Event, id: Id)
    requires Inv(s) && Enabled(s, e) && id !in s.nodes && id < s.next
    ensures id !in Step(s, e).nodes && id < Step(s, e).next
  {
    if e.Checkin? { CheckinKeeps(s, e.id, e.expires); }
    hide NoLeak, Handles, CheckedIn;
  }

  lemma {:induction false} GoneStays(s: State, events: seq<Event>, t: State, id: Id)
    requires Inv(s) && Leads(s, events, t) && id !in s.nodes && id < s.next
    ensures id !in t.nodes
    decreases |events|
  {
    hide Inv, Step, Enabled;
    if events != [] {
      GoneStep(s, events[0], id);
      GoneStays(Step(s, events[0]), events[1..], t, id);
    }
  }

  /** Over every run that does not give it out, a ready node stays as it is until the first sweep at its time or later, and is gone then. */
  lemma {:induction false} StaysReady(s: State, events: seq<Event>, t: State, id: Id)
    requires Inv(s) && Leads(s, events, t) && Untaken(s, events, id) && id in s.ready && id in s.nodes && id < s.next
    ensures if SweptBefore(events, s.nodes[id].expires) then id in t.ready && id in t.nodes && t.nodes[id] == s.nodes[id] else id !in t.nodes
    decreases |events|
  {
    hide Inv, Step, Enabled, Takes;
    if events != [] {
      var e, next := events[0], Step(s, events[0]);
      ReadyStep(s, e, id);
      GrowsStep(s, e);
      if e.Sweep? && s.nodes[id].expires <= e.now {
        GoneStays(next, events[1..], t, id);
      } else {
        StaysReady(next, events[1..], t, id);
        assert events == [e] + events[1..];
      }
    }
  }

  lemma GrowsStep(s: State, e: Event)
    requires Inv(s) && Enabled(s, e)
    ensures s.next <= Step(s, e).next && Step(s, e).enabled == s.enabled
  {
    if e.Checkin? { CheckinKeeps(s, e.id, e.expires); }
    hide NoLeak, Handles, CheckedIn;
  }

  /**
    A connection that is checked in until a time is kept, open and to the same host, over every run in which it is not given out and
    all sweeps are before that time; a checkout for its host then gives it if no other node for the host is ready. From the first
    sweep at that time or later its node is gone.
   */
  lemma CheckedInUntil(s: State, id: Id, expires: int, r: State, events: seq<Event>, t: State, client: nat)
    requires Inv(s) && id in s.busy && s.nodes[id].handle != -1 && r == CheckedIn(s, id, expires) && Inv(r)
    requires Leads(r, events, t) && Untaken(r, events, id)
    ensures SweptBefore(events, expires) ==>
              && id in t.ready && id in t.nodes && t.nodes[id] == Node(s.nodes[id].host, s.nodes[id].handle, expires)
              && s.nodes[id].handle in t.live && t.live[s.nodes[id].handle] == s.nodes[id].host
              && (t.enabled && OnlyFor(t, id) ==> Inv(t) && CheckedOut(t, s.nodes[id].host, client).1 == Some(id))
    ensures !SweptBefore(events, expires) ==> id !in t.nodes
  {
    CheckinKeeps(s, id, expires);
    assert id in r.ready && id < r.next;
    StaysReady(r, events, t, id);
    RunKeeps(r, events, t);
    hide Leads, Untaken, CheckedIn, NoLeak, Lists, CheckedOut;
    if SweptBefore(events, expires) && t.enabled && OnlyFor(t, id) { OnlyOneGiven(t, id, client); }
  }

  /** No other ready node is for the host of the node. */
  ghost predicate OnlyFor(s: State, id: Id) {
    id in s.nodes && forall i | i in s.ready && i in s.nodes && i != id :: s.nodes[i].host != s.nodes[id].host
  }

  lemma OnlyOneGiven(s: State, id: Id, client: nat)
    requires Inv(s) && s.enabled && id in s.ready && OnlyFor(s, id)
    ensures CheckedOut(s, s.nodes[id].host, client).1 == Some(id)
  {
  }

  /** A node that was checked in with a connection is the one that the next checkout for its host gives, whatever else is ready. */
  lemma LastIsNext(s: State, id: Id, expires: int, client: nat)
    requires Inv(s) && s.enabled && id in s.busy && s.nodes[id].handle != -1
    ensures var t := CheckedIn(s, id, expires); Inv(t) && CheckedOut(t, s.nodes[id].host, client).1 == Some(id)
  {
    CheckinKeeps(s, id, expires);
  }

  // ---------------------------------------------------------------------------------------------
  // The object
  // ---------------------------------------------------------------------------------------------

  /** Removing one more node. */
  lemma {:induction false} KeptOneMore(list: seq<Id>, gone: set<Id>, id: Id)
    ensures Kept(Kept(list, gone), {id}) == Kept(list, gone + {id})
    decreases |list|
  {
    if list != [] {
      var rest := Kept(list[1..], gone);
      KeptOneMore(list[1..], gone, id);
      if list[0] !in gone { assert ([list[0]] + rest)[1..] == rest; }
    }
  }

  lemma {:induction false} KeptAll(list: seq<Id>)
    ensures Kept(list, {}) == list
    decreases |list|
  {
    if list != [] { KeptAll(list[1..]); }
  }

  function ToSet(list: seq<Id>): (r: set<Id>) {
    set i | i in list
  }

  lemma ToSetSnoc(list: seq<Id>, id: Id)
    ensures ToSet(list + [id]) == ToSet(list) + {id}
  {
  }

  lemma OneMoreHandle(nodes: map<Id, Node>, ids: set<Id>, id: Id)
    requires id in nodes
    ensures HandlesOf(nodes, ids + {id}) == HandlesOf(nodes, ids) + {nodes[id].handle}
  {
  }

  lemma NoHandles(nodes: map<Id, Node>)
    ensures HandlesOf(nodes, ToSet([])) == {}
  {
  }

  lemma ReadyAreNodes(s: State)
    requires Inv(s)
    ensures forall i | i in s.ready :: i in s.nodes
  {
  }

  lemma SweptIsRemoved(s: State, now: int, stuck: set<int>)
    requires Inv(s)
    ensures Swept(s, now, stuck) == Removed(s, Expired(s, now, |s.ready|), stuck)
  {
  }

  lemma ExpiredStart(s: State, now: int)
    requires forall i | i in s.ready :: i in s.nodes
    ensures Expired(s, now, 0) == ToSet([])
  {
  }

  lemma ExpiredStep(s: State, now: int, k: nat)
    requires k < |s.ready| && forall i | i in s.ready :: i in s.nodes
    ensures Expired(s, now, k + 1) == Expired(s, now, k) + if s.nodes[s.ready[k]].expires <= now then {s.ready[k]} else {}
  {
  }

  class Pool {
    var nodes: map<Id, Node>
    var ready: seq<Id>
    var busy: seq<Id>
    var capacity: nat
    var enabled: bool
    var next: Id
    var live: map<int, Host>
    var lost: set<int>
    var holder: map<Id, nat>

    function Now(): (s: State)
      reads this
    {
      State(nodes, ready, busy, capacity, enabled, next, live, lost, holder)
    }

    ghost predicate Valid()
      reads this
    {
      Inv(Now())
    }

    constructor (capacity: nat)
      ensures Valid() && Now() == Empty(capacity)
    {
      nodes, ready, busy, live, lost, holder := map[], [], [], map[], {}, map[];
      this.capacity, enabled, next := capacity, true, 0;
    }

    method FindReady(host: Host) returns (r: Option<nat>)
      requires forall i | i in ready :: i in nodes
      ensures r == FirstFor(Now(), host, 0)
    {
      var k: nat := 0;
      while k < |ready|
        invariant k <= |ready| && FirstFor(Now(), host, k) == FirstFor(Now(), host, 0)
      {
        if nodes[ready[k]].host == host {
          return Some(k);
        }
        k := k + 1;
      }
      return None;
    }

    method Reuse(k: nat, client: nat)
      requires k < |ready|
      modifies this
      ensures Now() == Reused(old(Now()), k, client)
    {
      var id := ready[k];
      busy := [id] + busy;
      ready := Without(ready, k);
      holder := holder[id := client];
    }

    method Create(host: Host, client: nat)
      modifies this
      ensures Now() == Created(old(Now()), host, client)
    {
      nodes := nodes[next := Node(host, NO_HANDLE, 0)];
      busy := [next] + busy;
      holder := holder[next := client];
      next := next + 1;
    }

    /** checkout. */
    method Checkout(host: Host, client: nat) returns (id: Option<Id>)
      requires Valid()
      modifies this
      ensures Valid() && (Now(), id) == CheckedOut(old(Now()), host, client)
    {
      CheckoutKeeps(Now(), host, client);
      if !enabled {
        return None;
      }
      var found := FindReady(host);
      hide Inv, Reused, Created;
      if found.Some? {
        id := Some(ready[found.value]);
        Reuse(found.value, client);
      } else if capacity > |busy| + |ready| {
        id := Some(next);
        Create(host, client);
      } else {
        id := None;
      }
    }

    /** checkin. */
    method Checkin(id: Id, expires: int)
      requires Valid()
      modifies this
      ensures Valid() && Now() == CheckedIn(old(Now()), id, expires)
    {
      CheckinKeeps(Now(), id, expires);
      hide NoLeak, Handles, Dropped, Returned;
      var k: nat := 0;
      while k < |busy|
        invariant k <= |busy| && Now() == old(Now()) && Find(busy, id, k) == Find(busy, id, 0)
      {
        if busy[k] == id {
          if nodes[id].handle == NO_HANDLE {
            Drop(k);
          } else {
            Return(k, expires);
          }
          break;
        }
        k := k + 1;
      }
    }

    method Drop(k: nat)
      requires k < |busy|
      modifies this
      ensures Now() == Dropped(old(Now()), k)
    {
      nodes := nodes - {busy[k]};
      holder := holder - {busy[k]};
      busy := Without(busy, k);
    }

    method Return(k: nat, expires: int)
      requires k < |busy| && busy[k] in nodes
      modifies this
      ensures Now() == Returned(old(Now()), k, expires)
    {
      var id := busy[k];
      nodes := nodes[id := nodes[id].(expires := expires)];
      holder := holder - {id};
      busy := Without(busy, k);
      ready := [id] + ready;
    }

    /**
      The sweep: one loop closes the connections of expired nodes, except those in `stuck`, which cannot be assigned, and
      notes the nodes; another removes them.
     */
    method Sweep(now: int, stuck: set<int>)
      requires Valid()
      modifies this
      ensures Valid() && Now() == Swept(old(Now()), now, stuck)
    {
      hide Inv, Kept, Expired, ToSet, HandlesOf, Swept;
      ghost var was := Now();
      SweepKeeps(was, now, stuck);
      ReadyAreNodes(was);
      var doomed := CloseExpired(now, stuck);
      RemoveAll(doomed);
      SweptIsRemoved(was, now, stuck);
    }

    method CloseExpired(now: int, stuck: set<int>) returns (doomed: seq<Id>)
      requires forall i | i in ready :: i in nodes
      modifies this`live, this`lost
      ensures ToSet(doomed) == Expired(old(Now()), now, |ready|)
      ensures live == old(live) - (HandlesOf(nodes, ToSet(doomed)) - stuck) && lost == old(lost) + HandlesOf(nodes, ToSet(doomed)) * stuck
    {
      hide HandlesOf, Expired, ToSet;
      doomed := [];
      NoHandles(nodes);
      ghost var was := Now();
      ExpiredStart(was, now);
      var k: nat := 0;
      while k < |ready|
        invariant k <= |ready| && ToSet(doomed) == Expired(was, now, k)
        invariant live == old(live) - (HandlesOf(nodes, ToSet(doomed)) - stuck) && lost == old(lost) + HandlesOf(nodes, ToSet(doomed)) * stuck
      {
        var id := ready[k];
        ExpiredStep(was, now, k);
        if !(now < nodes[id].expires) {
          OneMoreHandle(nodes, ToSet(doomed), id);
          ToSetSnoc(doomed, id);
          if nodes[id].handle in stuck {
            lost := lost + {nodes[id].handle};
          } else {
            live := live - {nodes[id].handle};
          }
          doomed := doomed + [id];
        }
        k := k + 1;
      }
    }

    method RemoveAll(doomed: seq<Id>)
      modifies this`ready, this`nodes
      ensures ready == Kept(old(ready), ToSet(doomed)) && nodes == old(nodes) - ToSet(doomed)
    {
      hide Kept;
      KeptAll(ready);
      assert ToSet(doomed[..0]) == {};
      var k: nat := 0;
      while k < |doomed|
        invariant k <= |doomed| && ready == Kept(old(ready), ToSet(doomed[..k])) && nodes == old(nodes) - ToSet(doomed[..k])
      {
        KeptOneMore(old(ready), ToSet(doomed[..k]), doomed[k]);
        ToSetSnoc(doomed[..k], doomed[k]);
        assert doomed[..k + 1] == doomed[..k] + [doomed[k]];
        ready := Kept(ready, {doomed[k]});
        nodes := nodes - {doomed[k]};
        k := k + 1;
      }
      assert doomed[..k] == doomed;
    }
  }
}
