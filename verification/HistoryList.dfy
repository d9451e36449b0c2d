/**
  The lists of transaction ids of history_cache.cpp: what counts as listed already, what a list becomes as ids arrive one
  after the other, and when it ends up as the whole history.
 */
module HistoryList {
  import opened Sequences
  import opened JsonSyntax

  type Id = Text

  // ---------------------------------------------------------------------------------------------
  // Telling ids apart
  // ---------------------------------------------------------------------------------------------

  /** strncmp(t, x, |t|) == 0 for texts that end with a NUL. */
  predicate SamePrefix(t: Id, x: Id, k: nat)
    requires k <= |t|
    decreases |t| - k
  {
    k == |t| || (Peek(t, k) == Peek(x, k) && (Peek(t, k) == 0 || SamePrefix(t, x, k + 1)))
  }

  ghost predicate NoNul(t: Id) {
    forall k | 0 <= k < |t| :: t[k] != 0
  }

  lemma {:induction false} SamePrefixFrom(t: Id, x: Id, k: nat)
    requires k <= |t| && NoNul(t)
    ensures SamePrefix(t, x, k) <==> forall j | k <= j < |t| :: t[j] == Peek(x, j)
    decreases |t| - k
  {
    if k < |t| { SamePrefixFrom(t, x, k + 1); }
  }

  /** The comparison asks whether the listed id is a prefix of the new one. */
  lemma SamePrefixIsPrefix(t: Id, x: Id)
    requires NoNul(t)
    ensures SamePrefix(t, x, 0) <==> t <= x
  {
    SamePrefixFrom(t, x, 0);
    if SamePrefix(t, x, 0) && |t| > 0 {
      var last := |t| - 1;
      assert t[last] == Peek(x, last) && t[last] != 0;
      assert x[..|t|] == t;
    }
  }

  lemma {:induction false} SameAsItself(t: Id, k: nat)
    requires k <= |t|
    ensures SamePrefix(t, t, k)
    decreases |t| - k
  {
    if k < |t| { SameAsItself(t, k + 1); }
  }

  /** The new id counts as listed. */
  predicate Found(ids: seq<Id>, x: Id) {
    exists t | t in ids :: SamePrefix(t, x, 0)
  }

  ghost predicate AllNoNul(ids: seq<Id>) {
    forall t | t in ids :: NoNul(t)
  }

  lemma FoundIsPrefix(ids: seq<Id>, x: Id)
    requires AllNoNul(ids)
    ensures Found(ids, x) <==> exists t :: t in ids && t <= x
  {
    forall t | t in ids ensures SamePrefix(t, x, 0) <==> t <= x { SamePrefixIsPrefix(t, x); }
  }

  // ---------------------------------------------------------------------------------------------
  // Ids that arrive one after the other
  // ---------------------------------------------------------------------------------------------

  /** The list after the id has arrived. */
  function Listed(ids: seq<Id>, x: Id): (r: seq<Id>)
    ensures ids <= r
  {
    if Found(ids, x) then ids else ids + [x]
  }

  /** The list after the ids all[begin..end] have arrived. */
  function Listing(first: seq<Id>, all: seq<Id>, begin: nat, end: nat): (r: seq<Id>)
    requires begin <= end <= |all|
    decreases end
  {
    if begin == end then first else Listed(Listing(first, all, begin, end - 1), all[end - 1])
  }

  lemma {:induction false} ListingJoin(first: seq<Id>, all: seq<Id>, begin: nat, mid: nat, end: nat)
    requires begin <= mid <= end <= |all|
    ensures Listing(Listing(first, all, begin, mid), all, mid, end) == Listing(first, all, begin, end)
    decreases end
  {
    if mid < end { ListingJoin(first, all, begin, mid, end - 1); }
  }

  /** The list only grows, by ids that have arrived. */
  lemma {:induction false} ListingGrows(first: seq<Id>, all: seq<Id>, j: nat, k: nat)
    requires j <= k <= |all|
    ensures Listing(first, all, 0, j) <= Listing(first, all, 0, k)
    decreases k
  {
    if j < k {
      ListingGrows(first, all, j, k - 1);
      hide Listed;
      assert Listing(first, all, 0, k - 1) <= Listing(first, all, 0, k);
    }
  }

  lemma {:induction false} ListingFrom(first: seq<Id>, all: seq<Id>, k: nat)
    requires k <= |all|
    ensures forall id | id in Listing(first, all, 0, k) :: id in first || id in all[..k]
    ensures |Listing(first, all, 0, k)| <= |first| + k
    decreases k
  {
    if k > 0 {
      ListingFrom(first, all, k - 1);
      assert all[..k] == all[..k - 1] + [all[k - 1]];
      hide Found;
    }
  }

  /** An id that was not listed before is listed when it arrives, or never. */
  lemma {:induction false} ListedOnArrival(first: seq<Id>, all: seq<Id>, i: nat, k: nat)
    requires i < |all| && k <= |all| && NoDuplicates(all) && all[i] !in first
    ensures all[i] in Listing(first, all, 0, k) <==> i < k && !Found(Listing(first, all, 0, i), all[i])
    decreases k
  {
    if k > 0 {
      ListedOnArrival(first, all, i, k - 1);
      assert i != k - 1 ==> all[i] != all[k - 1];
      hide Found;
    }
  }

  /** An id that has arrived counts as listed ever after. */
  lemma FoundAfterwards(first: seq<Id>, all: seq<Id>, i: nat)
    requires i < |all|
    ensures Found(Listing(first, all, 0, |all|), all[i])
  {
    var before, after, last := Listing(first, all, 0, i), Listing(first, all, 0, i + 1), Listing(first, all, 0, |all|);
    ListingGrows(first, all, i + 1, |all|);
    SameAsItself(all[i], 0);
    assert after == Listed(before, all[i]);
    hide Listing, SamePrefix;
    if !Found(before, all[i]) { assert after[|before|] == all[i]; }
    assert forall t | t in after :: t in last;
  }

  /** Ids that arrive again change nothing. */
  lemma {:induction false} NothingNew(first: seq<Id>, all: seq<Id>, begin: nat, end: nat)
    requires begin <= end <= |all|
    ensures var last := Listing(first, all, 0, |all|); Listing(last, all, begin, end) == last
    decreases end
  {
    hide Found;
    if begin < end {
      NothingNew(first, all, begin, end - 1);
      FoundAfterwards(first, all, end - 1);
    }
  }

  // ---------------------------------------------------------------------------------------------
  // When the list is the history
  // ---------------------------------------------------------------------------------------------

  /** The id at k is new, and a shorter one that is listed or arrives earlier is a prefix of it. */
  ghost predicate Shadowed(first: seq<Id>, all: seq<Id>, k: nat)
    requires k < |all|
  {
    all[k] !in first && exists t :: (t in first || t in all[..k]) && t < all[k]
  }

  /** No id is dropped because it begins like another one. */
  ghost predicate Clear(first: seq<Id>, all: seq<Id>) {
    forall k: nat | k < |all| :: !Shadowed(first, all, k)
  }

  /** Ids of one length are never dropped. */
  lemma OneLengthIsClear(first: seq<Id>, all: seq<Id>, length: nat)
    requires forall t | t in first || t in all :: |t| == length
    ensures Clear(first, all)
  {
    forall k: nat | k < |all| ensures !Shadowed(first, all, k) {
      assert all[k] in all;
      assert forall t | t in all[..k] :: t in all;
    }
  }

  lemma ProperPrefix(t: Id, x: Id)
    ensures t <= x && t != x ==> t < x
  {
  }

  /** An id that nothing shadows is listed once it has arrived. */
  lemma ClearIsListed(first: seq<Id>, all: seq<Id>, i: nat, k: nat)
    requires i < k <= |all| && NoDuplicates(all) && AllNoNul(first) && AllNoNul(all) && Clear(first, all)
    ensures all[i] in Listing(first, all, 0, k)
  {
    if all[i] in first {
      ListingGrows(first, all, 0, k);
    } else {
      var before := Listing(first, all, 0, i);
      ListingFrom(first, all, i);
      assert forall t | t in all[..i] :: t in all && t != all[i];
      assert AllNoNul(before);
      FoundIsPrefix(before, all[i]);
      assert !Shadowed(first, all, i);
      forall t | t in before ensures !(t <= all[i]) { ProperPrefix(t, all[i]); }
      ListedOnArrival(first, all, i, k);
    }
  }

  /** What is listed in the end and came before was listed before. */
  lemma ListedBefore(first: seq<Id>, all: seq<Id>, k: nat, i: nat, t: Id)
    requires k <= |all| && i < |all| && NoDuplicates(all) && t in Listing(first, all, 0, k) && (t in first || t in all[..i])
    ensures t in Listing(first, all, 0, i)
  {
    if t in first {
      ListingGrows(first, all, 0, i);
    } else {
      var j :| 0 <= j < i && all[j] == t;
      ListedOnArrival(first, all, j, k);
      ListedOnArrival(first, all, j, i);
    }
    hide Listing, Found;
  }

  /** If everything was listed in the end, nothing was shadowed. */
  lemma ListedIsClear(first: seq<Id>, all: seq<Id>, k: nat, i: nat)
    requires k <= |all| && i < |all| && NoDuplicates(all) && AllNoNul(first) && AllNoNul(all)
    requires forall id | id in all || id in first :: id in Listing(first, all, 0, k)
    ensures !Shadowed(first, all, i)
  {
    hide Listing;
    if all[i] !in first {
      ListedOnArrival(first, all, i, k);
      forall t | t in first || t in all[..i] ensures !(t <= all[i]) {
        assert t in all[..i] ==> t in all;
        ListedBefore(first, all, k, i, t);
        SamePrefixIsPrefix(t, all[i]);
      }
    }
  }

  lemma {:induction false} SetSize(ids: seq<Id>)
    ensures |set id | id in ids| <= |ids| && (NoDuplicates(ids) ==> |set id | id in ids| == |ids|)
    decreases |ids|
  {
    if ids != [] {
      var n := |ids| - 1;
      var init, last := ids[..n], ids[n];
      assert ids == init + [last];
      SetSize(init);
      assert (set id | id in ids) == (set id | id in init) + {last};
      assert NoDuplicates(ids) ==> NoDuplicates(init) && last !in init;
    }
  }

  lemma SubsetSize(a: set<Id>, b: set<Id>)
    requires a <= b
    ensures |a| <= |b|
  {
    assert b == a + (b - a);
  }

  /** As many different ids as there are in all, and none that is foreign, are all of them. */
  lemma AllListed(ids: seq<Id>, all: seq<Id>)
    requires NoDuplicates(ids) && |ids| >= |all| && forall id | id in ids :: id in all
    ensures forall id | id in all :: id in ids
  {
    SetSize(ids);
    SetSize(all);
    var a, b := set id | id in ids, set id | id in all;
    forall id | id in all ensures id in ids {
      if id !in ids {
        SubsetSize(a, b - {id});
        assert false;
      }
    }
  }

  /** A list that holds everything is long enough for the loop to stop. */
  lemma ClearIsLong(first: seq<Id>, all: seq<Id>)
    requires NoDuplicates(all) && AllNoNul(first) && AllNoNul(all) && Clear(first, all)
    ensures |Listing(first, all, 0, |all|)| >= |all|
  {
    var last := Listing(first, all, 0, |all|);
    forall id | id in all ensures id in last {
      var i :| 0 <= i < |all| && all[i] == id;
      ClearIsListed(first, all, i, |all|);
    }
    SetSize(last);
    SetSize(all);
    SubsetSize(set id | id in all, set id | id in last);
  }

  /**
    At the end of the loop, all ids having arrived or the list being long enough, the list is the history if and only if it was
    part of it at the beginning and no new id is shadowed.
   */
  lemma WholeHistory(first: seq<Id>, all: seq<Id>, k: nat)
    requires NoDuplicates(all) && AllNoNul(first) && AllNoNul(all) && k <= |all|
    requires NoDuplicates(Listing(first, all, 0, k)) && (k == |all| || |Listing(first, all, 0, k)| >= |all|)
    ensures (forall id :: id in Listing(first, all, 0, k) <==> id in all) <==>
            (forall id | id in first :: id in all) && Clear(first, all)
  {
    var last := Listing(first, all, 0, k);
    ListingFrom(first, all, k);
    ListingGrows(first, all, 0, k);
    assert forall id | id in all[..k] :: id in all;
    hide Listing;
    if (forall id | id in first :: id in all) && Clear(first, all) {
      if |last| >= |all| {
        AllListed(last, all);
      } else {
        forall id | id in all ensures id in last {
          var i :| 0 <= i < |all| && all[i] == id;
          ClearIsListed(first, all, i, k);
        }
      }
    }
    if forall id :: id in last <==> id in all {
      forall i: nat | i < |all| ensures !Shadowed(first, all, i) { ListedIsClear(first, all, k, i); }
    }
  }

  /** The list stays shorter than the history if and only if an id is shadowed, as long as it held nothing foreign. */
  lemma ShortIsShadowed(first: seq<Id>, all: seq<Id>)
    requires NoDuplicates(all) && AllNoNul(first) && AllNoNul(all) && NoDuplicates(Listing(first, all, 0, |all|))
    requires forall id | id in first :: id in all
    ensures |Listing(first, all, 0, |all|)| < |all| <==> !Clear(first, all)
  {
    var last := Listing(first, all, 0, |all|);
    ListingFrom(first, all, |all|);
    assert all[..|all|] == all;
    hide Listing, Clear;
    WholeHistory(first, all, |all|);
    if Clear(first, all) { ClearIsLong(first, all); }
    if |last| >= |all| { AllListed(last, all); }
  }
}
