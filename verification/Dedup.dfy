/** The duplicate filter's bounded, recency-ordered memory of accepted uids, and the unbounded
    memory it stands in for. Times are whole ticks of one clock. */
module Dedup {
  import opened Wrappers

  const CAPACITY: nat := 2048

  /** A uid and when an event of it was last accepted. */
  datatype Seen = Seen(uid: string, at: int)

  function Lookup(list: seq<Seen>, uid: string): Option<int> {
    if list == [] then None
    else if list[|list| - 1].uid == uid then Some(list[|list| - 1].at)
    else Lookup(list[..|list| - 1], uid)
  }

  function Without(list: seq<Seen>, uid: string): seq<Seen> {
    if list == [] then []
    else
      var init, last := Without(list[..|list| - 1], uid), list[|list| - 1];
      if last.uid == uid then init else init + [last]
  }

  /** Store a time for a uid and make it the most recent. */
  function Touch(list: seq<Seen>, e: Seen): seq<Seen> {
    Without(list, e.uid) + [e]
  }

  /** Drop the oldest entry if there is one too many. */
  function Evict(list: seq<Seen>): seq<Seen> {
    if |list| > CAPACITY then list[1..] else list
  }

  predicate Fresh(last: Option<int>, now: int, window: int) {
    last.Some? && now - last.value < window
  }

  // ----- the memories a log of acceptances leaves -----

  /** The bounded memory after accepting the events of `log` in order. */
  function Bounded(log: seq<Seen>): seq<Seen> {
    if log == [] then [] else Evict(Touch(Bounded(log[..|log| - 1]), log[|log| - 1]))
  }

  /** The unbounded memory, as a map from uid to the time it was last accepted. */
  function LastAccepted(log: seq<Seen>): map<string, int> {
    if log == [] then map[] else LastAccepted(log[..|log| - 1])[log[|log| - 1].uid := log[|log| - 1].at]
  }

  /** All uids by recency, nothing evicted. */
  function Recency(log: seq<Seen>): seq<Seen> {
    if log == [] then [] else Touch(Recency(log[..|log| - 1]), log[|log| - 1])
  }

  /** The distinct uids accepted after the last acceptance of `uid`. */
  function Since(log: seq<Seen>, uid: string): set<string> {
    if log == [] || log[|log| - 1].uid == uid then {}
    else Since(log[..|log| - 1], uid) + {log[|log| - 1].uid}
  }

  function Uids(list: seq<Seen>): set<string> {
    set i | 0 <= i < |list| :: list[i].uid
  }

  predicate Distinct(list: seq<Seen>) {
    forall i, j | 0 <= i < j < |list| :: list[i].uid != list[j].uid
  }

  lemma UidsSnoc(list: seq<Seen>, e: Seen)
    ensures Uids(list + [e]) == Uids(list) + {e.uid}
  {
    assert (list + [e])[|list|] == e;
    forall u | u in Uids(list) ensures u in Uids(list + [e]) {
      var i :| 0 <= i < |list| && list[i].uid == u;
      assert (list + [e])[i].uid == u;
    }
  }

  lemma {:induction false} WithoutKeeps(list: seq<Seen>, uid: string)
    requires Distinct(list)
    ensures Distinct(Without(list, uid)) && Uids(Without(list, uid)) == Uids(list) - {uid}
  {
    if list != [] {
      var init, last := list[..|list| - 1], list[|list| - 1];
      assert list == init + [last];
      WithoutKeeps(init, uid);
      UidsSnoc(init, last);
      assert last.uid !in Uids(init);
      if last.uid != uid {
        UidsSnoc(Without(init, uid), last);
      } else {
        assert Uids(list) - {uid} == Uids(init) - {uid};
      }
    }
  }

  lemma {:induction false} DistinctSize(list: seq<Seen>)
    requires Distinct(list)
    ensures |Uids(list)| == |list|
  {
    if list != [] {
      var init, last := list[..|list| - 1], list[|list| - 1];
      assert list == init + [last];
      DistinctSize(init);
      UidsSnoc(init, last);
      assert last.uid !in Uids(init);
    }
  }

  lemma TouchDistinct(list: seq<Seen>, e: Seen)
    requires Distinct(list)
    ensures Distinct(Touch(list, e))
  {
    var rest := Without(list, e.uid);
    WithoutKeeps(list, e.uid);
    forall i | 0 <= i < |rest| ensures rest[i].uid != e.uid {
      assert rest[i].uid in Uids(rest);
    }
  }

  lemma {:induction false} RecencyDistinct(log: seq<Seen>)
    ensures Distinct(Recency(log))
  {
    if log != [] {
      RecencyDistinct(log[..|log| - 1]);
      TouchDistinct(Recency(log[..|log| - 1]), log[|log| - 1]);
    }
  }

  // ----- the bounded memory is the most recent part of the unbounded one -----

  function Tail(list: seq<Seen>, n: nat): seq<Seen> {
    if |list| <= n then list else list[|list| - n..]
  }

  lemma {:induction false} WithoutConcat(a: seq<Seen>, b: seq<Seen>, uid: string)
    ensures Without(a + b, uid) == Without(a, uid) + Without(b, uid)
  {
    if b == [] {
      assert a + b == a;
    } else {
      WithoutConcat(a, b[..|b| - 1], uid);
      assert (a + b)[..|a + b| - 1] == a + b[..|b| - 1];
    }
  }

  lemma {:induction false} WithoutAbsent(list: seq<Seen>, uid: string)
    requires uid !in Uids(list)
    ensures Without(list, uid) == list
  {
    if list != [] {
      var init, last := list[..|list| - 1], list[|list| - 1];
      assert list == init + [last];
      UidsSnoc(init, last);
      WithoutAbsent(init, uid);
    }
  }

  lemma {:induction false} WithoutShorter(list: seq<Seen>, uid: string)
    requires Distinct(list)
    ensures |Without(list, uid)| == if uid in Uids(list) then |list| - 1 else |list|
  {
    WithoutKeeps(list, uid);
    DistinctSize(list);
    DistinctSize(Without(list, uid));
  }

  lemma TailConcat(a: seq<Seen>, b: seq<Seen>, n: nat)
    requires |b| >= n
    ensures Tail(a + b, n) == Tail(b, n)
  {}

  lemma EvictIsTail(list: seq<Seen>)
    requires |list| <= CAPACITY + 1
    ensures Evict(list) == Tail(list, CAPACITY)
  {}

  lemma NotInBoth(a: seq<Seen>, b: seq<Seen>, uid: string)
    requires Distinct(a + b)
    ensures !(uid in Uids(a) && uid in Uids(b))
  {
    forall i, j | 0 <= i < |a| && 0 <= j < |b| ensures a[i].uid != b[j].uid {
      assert (a + b)[i] == a[i] && (a + b)[|a| + j] == b[j];
    }
  }

  lemma DistinctParts(a: seq<Seen>, b: seq<Seen>)
    requires Distinct(a + b)
    ensures Distinct(a) && Distinct(b)
  {
    assert forall i | 0 <= i < |a| :: a[i] == (a + b)[i];
    assert forall i | 0 <= i < |b| :: b[i] == (a + b)[|a| + i];
  }

  /** Touching and evicting commutes with keeping the most recent entries. */
  lemma TouchTail(list: seq<Seen>, e: Seen)
    requires Distinct(list)
    ensures Evict(Touch(Tail(list, CAPACITY), e)) == Tail(Touch(list, e), CAPACITY)
  {
    var kept := Tail(list, CAPACITY);
    var old' := list[..|list| - |kept|];
    assert list == old' + kept;
    DistinctParts(old', kept);
    WithoutConcat(old', kept, e.uid);
    WithoutShorter(kept, e.uid);
    EvictIsTail(Touch(kept, e));
    assert Touch(list, e) == Without(old', e.uid) + Touch(kept, e);
    if |kept| < CAPACITY {
      assert old' == [] && Without(old', e.uid) == [];
      assert Touch(list, e) == Touch(kept, e);
    } else {
      TailConcat(Without(old', e.uid), Touch(kept, e), CAPACITY);
    }
  }

  /** The bounded memory always holds exactly the 2048 most recently accepted uids. */
  lemma {:induction false} BoundedIsMostRecent(log: seq<Seen>)
    ensures Bounded(log) == Tail(Recency(log), 2048)
    ensures |Bounded(log)| <= 2048
  {
    if log != [] {
      BoundedIsMostRecent(log[..|log| - 1]);
      RecencyDistinct(log[..|log| - 1]);
      TouchTail(Recency(log[..|log| - 1]), log[|log| - 1]);
    }
  }

  predicate Ordered(list: seq<Seen>) {
    forall i, j | 0 <= i < j < |list| :: list[i].at <= list[j].at
  }

  lemma {:induction false} WithoutWithin(list: seq<Seen>, uid: string)
    ensures forall e | e in Without(list, uid) :: e in list
    ensures Ordered(list) ==> Ordered(Without(list, uid))
  {
    if list != [] {
      var init, last := list[..|list| - 1], list[|list| - 1];
      assert list == init + [last];
      WithoutWithin(init, uid);
      var w := Without(init, uid);
      if Ordered(list) {
        assert Ordered(init);
        forall i | 0 <= i < |w| ensures w[i].at <= last.at {
          assert w[i] in init;
        }
      }
    }
  }

  /** Under a clock that never runs back, entries stay in the order they were accepted in. */
  lemma {:induction false} RecencyOrdered(log: seq<Seen>)
    requires Ordered(log)
    ensures Ordered(Recency(log)) && Ordered(Bounded(log)) && forall e | e in Recency(log) :: e in log
  {
    BoundedIsMostRecent(log);
    if log != [] {
      var init, last := log[..|log| - 1], log[|log| - 1];
      RecencyOrdered(init);
      WithoutWithin(Recency(init), last.uid);
      var w := Without(Recency(init), last.uid);
      forall i | 0 <= i < |w| ensures w[i].at <= last.at && w[i] in log {
        assert w[i] in Recency(init);
        assert w[i] in init;
      }
      assert Recency(log) == w + [last];
    }
  }

  // ----- decisions -----

  lemma {:induction false} LookupAbsent(list: seq<Seen>, uid: string)
    ensures Lookup(list, uid).None? <==> uid !in Uids(list)
  {
    if list != [] {
      var init, last := list[..|list| - 1], list[|list| - 1];
      assert list == init + [last];
      LookupAbsent(init, uid);
      UidsSnoc(init, last);
    }
  }

  lemma {:induction false} LookupWithout(list: seq<Seen>, uid: string, other: string)
    ensures Lookup(Without(list, uid), other) == if other == uid then None else Lookup(list, other)
  {
    if list != [] {
      LookupWithout(list[..|list| - 1], uid, other);
    }
  }

  lemma {:induction false} RecencyIsLastAccepted(log: seq<Seen>, uid: string)
    ensures Lookup(Recency(log), uid) == if uid in LastAccepted(log) then Some(LastAccepted(log)[uid]) else None
  {
    if log != [] {
      var init, last := log[..|log| - 1], log[|log| - 1];
      RecencyIsLastAccepted(init, uid);
      LookupWithout(Recency(init), last.uid, uid);
    }
  }

  lemma WithoutSplit(a: seq<Seen>, e: Seen, b: seq<Seen>, uid: string)
    requires uid != e.uid
    ensures Without(a + [e] + b, uid) == Without(a, uid) + [e] + Without(b, uid)
  {
    WithoutConcat(a + [e], b, uid);
    WithoutConcat(a, [e], uid);
    assert [e][..0] == [];
    assert Without([e], uid) == [e];
  }

  lemma TouchSplit(a: seq<Seen>, e: Seen, b: seq<Seen>, last: Seen)
    requires Distinct(b) && last.uid != e.uid
    ensures Touch(a + [e] + b, last) == Without(a, last.uid) + [e] + Touch(b, last)
    ensures Uids(Touch(b, last)) == Uids(b) + {last.uid}
  {
    WithoutSplit(a, e, b, last.uid);
    TouchUids(b, last);
  }

  lemma TouchUids(list: seq<Seen>, last: Seen)
    requires Distinct(list)
    ensures Uids(Touch(list, last)) == Uids(list) + {last.uid}
  {
    WithoutKeeps(list, last.uid);
    UidsSnoc(Without(list, last.uid), last);
  }

  /** Splitting the recency list at a uid: what comes after it is what was accepted since. */
  lemma {:induction false} SinceIsAfter(log: seq<Seen>, uid: string)
    returns (before: seq<Seen>, e: Seen, after: seq<Seen>)
    requires uid in Uids(Recency(log))
    ensures Recency(log) == before + [e] + after && e.uid == uid && Uids(after) == Since(log, uid)
  {
    var init, last := log[..|log| - 1], log[|log| - 1];
    if last.uid == uid {
      before, e, after := Without(Recency(init), uid), last, [];
    } else {
      RecencyDistinct(init);
      TouchUids(Recency(init), last);
      var a, b;
      a, e, b := SinceIsAfter(init, uid);
      DistinctParts(a + [e], b);
      TouchSplit(a, e, b, last);
      before, after := Without(a, last.uid), Touch(b, last);
    }
  }

  lemma {:induction false} LookupAt(a: seq<Seen>, e: Seen, b: seq<Seen>)
    requires e.uid !in Uids(b)
    ensures Lookup(a + [e] + b, e.uid) == Some(e.at)
  {
    if b == [] {
      assert a + [e] + b == a + [e];
    } else {
      var init := b[..|b| - 1];
      assert b == init + [b[|b| - 1]];
      UidsSnoc(init, b[|b| - 1]);
      LookupAt(a, e, init);
      assert (a + [e] + b)[..|a + [e] + b| - 1] == a + [e] + init;
    }
  }

  lemma TailAbsent(list: seq<Seen>, n: nat, uid: string)
    requires uid !in Uids(list)
    ensures Lookup(Tail(list, n), uid).None?
  {
    var kept := Tail(list, n);
    forall i | 0 <= i < |kept| ensures kept[i].uid != uid {
      assert kept[i] == list[|list| - |kept| + i];
      assert list[|list| - |kept| + i].uid in Uids(list);
    }
    LookupAbsent(kept, uid);
  }

  lemma TailLookup(before: seq<Seen>, e: Seen, after: seq<Seen>, n: nat)
    requires e.uid !in Uids(after)
    ensures Lookup(Tail(before + [e] + after, n), e.uid) == if |after| < n then Some(e.at) else None
  {
    var all := before + [e] + after;
    if |after| >= n {
      TailConcat(before + [e], after, n);
      TailAbsent(after, n, e.uid);
    } else if |all| > n {
      var rest := before[|all| - n..];
      assert Tail(all, n) == rest + [e] + after;
      LookupAt(rest, e, after);
    } else {
      LookupAt(before, e, after);
    }
  }

  /** What the bounded memory still knows: the last acceptance of a uid, unless 2048 other uids
      have been accepted since. */
  lemma BoundedForgetsExactly(log: seq<Seen>, uid: string)
    ensures Lookup(Bounded(log), uid)
      == if uid in LastAccepted(log) && |Since(log, uid)| < 2048 then Some(LastAccepted(log)[uid]) else None
  {
    BoundedIsMostRecent(log);
    RecencyIsLastAccepted(log, uid);
    var all := Recency(log);
    LookupAbsent(all, uid);
    if uid !in Uids(all) {
      TailAbsent(all, CAPACITY, uid);
    } else {
      var before, e, after := SinceIsAfter(log, uid);
      RecencyDistinct(log);
      AfterUnique(before, e, after);
      TailLookup(before, e, after, CAPACITY);
      LookupAt(before, e, after);
    }
  }

  lemma AfterUnique(before: seq<Seen>, e: Seen, after: seq<Seen>)
    requires Distinct(before + [e] + after)
    ensures e.uid !in Uids(after) && |Uids(after)| == |after|
  {
    DistinctParts(before + [e], after);
    DistinctSize(after);
    NotInBoth(before + [e], after, e.uid);
    UidsSnoc(before, e);
  }

  // ----- whole traces -----

  /** Rejected because the uid was accepted less than a window ago, as far as is remembered. */
  predicate BoundedRejects(log: seq<Seen>, e: Seen, window: int) {
    Fresh(Lookup(Bounded(log), e.uid), e.at, window)
  }

  predicate ReferenceRejects(log: seq<Seen>, e: Seen, window: int) {
    e.uid in LastAccepted(log) && e.at - LastAccepted(log)[e.uid] < window
  }

  /** The acceptances the bounded filter makes on a trace. */
  function BoundedLog(trace: seq<Seen>, window: int): seq<Seen> {
    if trace == [] then []
    else
      var log, e := BoundedLog(trace[..|trace| - 1], window), trace[|trace| - 1];
      if BoundedRejects(log, e, window) then log else log + [e]
  }

  function ReferenceLog(trace: seq<Seen>, window: int): seq<Seen> {
    if trace == [] then []
    else
      var log, e := ReferenceLog(trace[..|trace| - 1], window), trace[|trace| - 1];
      if ReferenceRejects(log, e, window) then log else log + [e]
  }

  predicate SameDecision(trace: seq<Seen>, window: int, k: nat)
    requires k < |trace|
  {
    BoundedRejects(BoundedLog(trace[..k], window), trace[k], window)
    == ReferenceRejects(ReferenceLog(trace[..k], window), trace[k], window)
  }

  /** Event `k` is a duplicate, and 2048 other uids have been accepted since the original. */
  predicate Overflows(trace: seq<Seen>, window: int, k: nat)
    requires k < |trace|
  {
    var log := ReferenceLog(trace[..k], window);
    ReferenceRejects(log, trace[k], window) && |Since(log, trace[k].uid)| >= 2048
  }

  /** Event `k` gets through: the latest event of its uid to get through before it, if any, was a
      window or more ago. One that did not get through counts for nothing. */
  predicate GetsThrough(trace: seq<Seen>, window: int, k: nat)
    requires k < |trace|
    decreases k, 1
  {
    forall j | 0 <= j < k && LatestThrough(trace, window, k, trace[k].uid, j) :: trace[k].at - trace[j].at >= window
  }

  /** Of the events of a uid before `k`, `j` is the latest that got through. */
  predicate LatestThrough(trace: seq<Seen>, window: int, k: nat, uid: string, j: nat)
    requires j < k <= |trace|
    decreases k, 0
  {
    && trace[j].uid == uid && GetsThrough(trace, window, j)
    && forall i | j < i < k && trace[i].uid == uid :: !GetsThrough(trace, window, i)
  }

  lemma {:induction false} LastAcceptedIsLatest(trace: seq<Seen>, window: int, k: nat, uid: string)
    requires k <= |trace|
    ensures var last := LastAccepted(ReferenceLog(trace[..k], window));
      && (uid in last <==> exists j :: 0 <= j < k && LatestThrough(trace, window, k, uid, j))
      && forall j | 0 <= j < k && LatestThrough(trace, window, k, uid, j) :: uid in last && last[uid] == trace[j].at
  {
    if k > 0 {
      var n := k - 1;
      LastAcceptedIsLatest(trace, window, n, uid);
      RejectedExactly(trace, window, n);
      LogStep(trace, window, n, uid);
      forall j | 0 <= j < k
        ensures LatestThrough(trace, window, k, uid, j)
          <==> if trace[n].uid == uid && GetsThrough(trace, window, n) then j == n
               else j < n && LatestThrough(trace, window, n, uid, j)
      {
        LatestStep(trace, window, n, uid, j);
      }
      if trace[n].uid == uid && GetsThrough(trace, window, n) {
        assert LatestThrough(trace, window, k, uid, n);
      } else if j :| 0 <= j < n && LatestThrough(trace, window, n, uid, j) {
        assert LatestThrough(trace, window, k, uid, j);
      }
    }
  }

  lemma LatestStep(trace: seq<Seen>, window: int, n: nat, uid: string, j: nat)
    requires j <= n < |trace|
    ensures LatestThrough(trace, window, n + 1, uid, j)
      <==> if trace[n].uid == uid && GetsThrough(trace, window, n) then j == n
           else j < n && LatestThrough(trace, window, n, uid, j)
  {}

  lemma LogStep(trace: seq<Seen>, window: int, n: nat, uid: string)
    requires n < |trace|
    ensures var (before, after) := (LastAccepted(ReferenceLog(trace[..n], window)),
                                    LastAccepted(ReferenceLog(trace[..n + 1], window)));
      if trace[n].uid == uid && !ReferenceRejects(ReferenceLog(trace[..n], window), trace[n], window)
      then uid in after && after[uid] == trace[n].at
      else (uid in after <==> uid in before) && (uid in before ==> after[uid] == before[uid])
  {
    assert trace[..n + 1][..n] == trace[..n] && trace[..n + 1][n] == trace[n];
  }

  /** What the unbounded memory amounts to: it rejects exactly the events that do not get through. */
  lemma {:induction false} RejectedExactly(trace: seq<Seen>, window: int, k: nat)
    requires k < |trace|
    ensures ReferenceRejects(ReferenceLog(trace[..k], window), trace[k], window) <==> !GetsThrough(trace, window, k)
  {
    LastAcceptedIsLatest(trace, window, k, trace[k].uid);
  }

  lemma {:induction false} SameLogs(trace: seq<Seen>, window: int)
    requires AllAgree(trace, window)
    ensures BoundedLog(trace, window) == ReferenceLog(trace, window)
  {
    if trace != [] {
      var init, e := trace[..|trace| - 1], trace[|trace| - 1];
      assert trace == init + [e];
      PrefixDecisions(init, e, window);
      SameLogs(init, window);
      assert SameDecision(trace, window, |init|);
    }
  }

  ghost predicate AllAgree(trace: seq<Seen>, window: int) {
    forall k | 0 <= k < |trace| :: SameDecision(trace, window, k)
  }

  ghost predicate NeverOverflows(trace: seq<Seen>, window: int) {
    forall k | 0 <= k < |trace| :: !Overflows(trace, window, k)
  }

  lemma {:induction false} PrefixDecisions(init: seq<Seen>, e: Seen, window: int)
    ensures AllAgree(init + [e], window) <==> AllAgree(init, window) && SameDecision(init + [e], window, |init|)
    ensures NeverOverflows(init + [e], window)
      <==> NeverOverflows(init, window) && !Overflows(init + [e], window, |init|)
  {
    var trace := init + [e];
    forall k | 0 <= k < |init|
      ensures SameDecision(init, window, k) == SameDecision(trace, window, k)
      ensures Overflows(init, window, k) == Overflows(trace, window, k)
    {
      assert trace[..k] == init[..k];
    }
  }

  lemma LastDecision(init: seq<Seen>, e: Seen, window: int)
    requires AllAgree(init, window)
    ensures SameDecision(init + [e], window, |init|) <==> !Overflows(init + [e], window, |init|)
  {
    assert (init + [e])[..|init|] == init;
    SameLogs(init, window);
    BoundedForgetsExactly(ReferenceLog(init, window), e.uid);
  }

  /** On any trace, with any clock: the bounded filter decides every event as the unbounded one
      does exactly when no duplicate comes after 2048 other uids were accepted since its
      original. */
  lemma {:induction false} BoundedRefinesExactly(trace: seq<Seen>, window: int)
    ensures AllAgree(trace, window) <==> NeverOverflows(trace, window)
  {
    if trace != [] {
      var init, e := trace[..|trace| - 1], trace[|trace| - 1];
      assert trace == init + [e];
      BoundedRefinesExactly(init, window);
      PrefixDecisions(init, e, window);
      if AllAgree(init, window) {
        LastDecision(init, e, window);
      }
    }
  }

  /** The uids accepted in the window of time that ends at `now`. */
  function AcceptedWithin(log: seq<Seen>, now: int, window: int): set<string> {
    set i | 0 <= i < |log| && now - window < log[i].at <= now :: log[i].uid
  }

  lemma AcceptedSnoc(init: seq<Seen>, last: Seen, now: int, window: int)
    ensures AcceptedWithin(init, now, window) <= AcceptedWithin(init + [last], now, window)
    ensures now - window < last.at <= now ==> last.uid in AcceptedWithin(init + [last], now, window)
  {
    var log := init + [last];
    assert log[|init|] == last;
    forall u | u in AcceptedWithin(init, now, window) ensures u in AcceptedWithin(log, now, window) {
      var i :| 0 <= i < |init| && now - window < init[i].at <= now && init[i].uid == u;
      assert log[i] == init[i];
    }
  }

  lemma {:induction false} SinceWithin(log: seq<Seen>, uid: string, now: int, window: int)
    requires Ordered(log) && (forall e | e in log :: e.at <= now)
    requires uid in LastAccepted(log) && now - LastAccepted(log)[uid] < window
    ensures Since(log, uid) + {uid} <= AcceptedWithin(log, now, window)
    ensures uid !in Since(log, uid)
    ensures log != [] && LastAccepted(log)[uid] <= log[|log| - 1].at
  {
    var init, last := log[..|log| - 1], log[|log| - 1];
    assert last in log;
    if last.uid != uid {
      assert log == init + [last];
      SinceWithin(init, uid, now, window);
      AcceptedSnoc(init, last, now, window);
      assert init[|init| - 1] == log[|log| - 2];
    }
  }

  lemma {:induction false} LogWithinTrace(trace: seq<Seen>, window: int)
    ensures forall e | e in ReferenceLog(trace, window) :: e in trace
    ensures Ordered(trace) ==> Ordered(ReferenceLog(trace, window))
  {
    if trace != [] {
      var init, last := trace[..|trace| - 1], trace[|trace| - 1];
      assert trace == init + [last];
      LogWithinTrace(init, window);
      var log := ReferenceLog(init, window);
      if Ordered(trace) {
        assert Ordered(init);
        forall i | 0 <= i < |log| ensures log[i].at <= last.at {
          assert log[i] in init;
        }
      }
    }
  }

  lemma FitsWindow(trace: seq<Seen>, window: int, k: nat)
    requires Ordered(trace) && k < |trace|
    requires |AcceptedWithin(ReferenceLog(trace[..k], window), trace[k].at, window)| <= 2048
    ensures !Overflows(trace, window, k)
  {
    var log, e := ReferenceLog(trace[..k], window), trace[k];
    LogWithinTrace(trace[..k], window);
    if ReferenceRejects(log, e, window) {
      forall x | x in log ensures x.at <= e.at {
        assert x in trace[..k];
      }
      SinceWithin(log, e.uid, e.at, window);
      SubsetSize(Since(log, e.uid) + {e.uid}, AcceptedWithin(log, e.at, window));
    }
  }

  /** In an operator's terms: if the clock never runs back and no stretch of time as long as the
      window ever sees more than 2048 distinct uids accepted, the bound is invisible. */
  lemma {:induction false} BoundInvisible(trace: seq<Seen>, window: int)
    requires Ordered(trace)
    requires forall k | 0 <= k < |trace| ::
      |AcceptedWithin(ReferenceLog(trace[..k], window), trace[k].at, window)| <= 2048
    ensures AllAgree(trace, window)
    ensures BoundedLog(trace, window) == ReferenceLog(trace, window)
  {
    forall k | 0 <= k < |trace| ensures !Overflows(trace, window, k) {
      FitsWindow(trace, window, k);
    }
    BoundedRefinesExactly(trace, window);
    SameLogs(trace, window);
  }

  lemma {:induction false} SubsetSize<T>(a: set<T>, b: set<T>)
    requires a <= b
    ensures |a| <= |b|
  {
    if a != {} {
      var x :| x in a;
      SubsetSize(a - {x}, b - {x});
    }
  }

  // ----- an overflow -----

  function Nth(i: nat): (uid: string)
    ensures |uid| == i + 1
  {
    seq(i + 1, _ => 'x')
  }

  /** `n` distinct uids at one time. */
  function Burst(n: nat): seq<Seen> {
    if n == 0 then [] else Burst(n - 1) + [Seen(Nth(n - 1), 0)]
  }

  function Nths(from: nat, to: nat): set<string> {
    set i | from <= i < to :: Nth(i)
  }

  lemma {:induction false} NthsSize(from: nat, to: nat)
    requires from <= to
    ensures |Nths(from, to)| == to - from
  {
    if from < to {
      NthsSize(from, to - 1);
      assert Nths(from, to) == Nths(from, to - 1) + {Nth(to - 1)};
      assert Nth(to - 1) !in Nths(from, to - 1);
    }
  }

  lemma AcceptNew(log: seq<Seen>, e: Seen, first: string, window: int)
    requires ReferenceLog(log, window) == log && e.uid !in LastAccepted(log)
    ensures ReferenceLog(log + [e], window) == log + [e]
    ensures LastAccepted(log + [e]) == LastAccepted(log)[e.uid := e.at]
    ensures Since(log + [e], first) == if e.uid == first then {} else Since(log, first) + {e.uid}
  {
    var all := log + [e];
    assert all != [] && all[..|all| - 1] == log && all[|all| - 1] == e;
  }

  lemma NthsSnoc(from: nat, n: nat)
    requires from <= n
    ensures Nths(from, n + 1) == Nths(from, n) + {Nth(n)} && Nth(n) !in Nths(from, n)
  {}

  /** All of them are accepted, and all but the first come after the first. */
  lemma {:induction false} BurstAccepted(n: nat, window: int)
    ensures ReferenceLog(Burst(n), window) == Burst(n)
    ensures LastAccepted(Burst(n)) == map uid | uid in Nths(0, n) :: 0
    ensures n >= 1 ==> Since(Burst(n), Nth(0)) == Nths(1, n)
  {
    if n >= 1 {
      BurstAccepted(n - 1, window);
      NthsSnoc(0, n - 1);
      AcceptNew(Burst(n - 1), Seen(Nth(n - 1), 0), Nth(0), window);
      if n >= 2 {
        NthsSnoc(1, n - 1);
        assert |Nth(n - 1)| != |Nth(0)|;
      }
    }
  }

  lemma {:induction false} BurstLength(n: nat)
    ensures |Burst(n)| == n
  {
    if n > 0 {
      BurstLength(n - 1);
    }
  }

  /** The memory can forget too early: after `n` distinct uids at once, the first of them passes
      again at the same instant, where the unbounded memory refuses it, exactly from 2049 on. */
  lemma DuplicateSlipsThrough(n: nat, window: int)
    requires window > 0 && n >= 1
    ensures var trace, e := Burst(n), Seen(Nth(0), 0);
      && ReferenceRejects(ReferenceLog(trace, window), e, window)
      && (BoundedRejects(BoundedLog(trace, window), e, window) <==> n <= 2048)
      && (AllAgree(trace + [e], window) <==> n <= 2048)
  {
    var trace, e := Burst(n), Seen(Nth(0), 0);
    BurstAccepted(n, window);
    NthsSize(1, n);
    assert Nth(0) in Nths(0, n);
    BurstAgrees(n, window);
    SameLogs(trace, window);
    BoundedForgetsExactly(trace, Nth(0));
    PrefixDecisions(trace, e, window);
    assert (trace + [e])[..|trace|] == trace;
  }

  /** Up to there nothing is a duplicate, so the two memories agree. */
  lemma {:induction false} BurstAgrees(n: nat, window: int)
    ensures AllAgree(Burst(n), window)
  {
    forall k | 0 <= k < |Burst(n)| ensures !Overflows(Burst(n), window, k) {
      BurstLength(n);
      BurstPrefix(n, k);
      BurstAccepted(k, window);
      assert Nth(k) !in Nths(0, k);
    }
    BoundedRefinesExactly(Burst(n), window);
  }

  lemma {:induction false} BurstPrefix(n: nat, k: nat)
    requires k < n
    ensures |Burst(n)| == n && Burst(n)[..k] == Burst(k) && Burst(n)[k] == Seen(Nth(k), 0)
  {
    BurstLength(n);
    BurstLength(n - 1);
    if k < n - 1 {
      BurstPrefix(n - 1, k);
      assert Burst(n)[..k] == Burst(n - 1)[..k];
    } else {
      assert Burst(n)[..k] == Burst(k);
    }
  }
}
