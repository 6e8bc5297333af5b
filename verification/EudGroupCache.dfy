/** The cache of a user's access groups, with a lifetime that every write renews. Times are
    whole ticks of one clock. */
module EudGroupCache {
  import opened Wrappers

  /** The cache's contents as a value. */
  datatype Store = Store(groups: map<string, set<string>>, lastSeen: map<string, int>)

  const EMPTY := Store(map[], map[])

  /** The operations. An eviction sweep samples the clock before it gets the lock, so the sample
      may be older than the moment it takes effect. */
  datatype Op =
    | Update(uid: string, group: string, at: int)
    | SetGroups(uid: string, all: set<string>, at: int)
    | Get(uid: string, at: int)
    | Evict(sampled: int, at: int)

  function Put(s: Store, uid: string, groups: set<string>, at: int): Store {
    Store(s.groups[uid := groups], s.lastSeen[uid := at])
  }

  function Remove(s: Store, uids: set<string>): Store {
    Store(s.groups - uids, s.lastSeen - uids)
  }

  predicate Expired(s: Store, uid: string, now: int, ttl: int) {
    uid in s.lastSeen && now - s.lastSeen[uid] > ttl
  }

  function ExpiredUids(s: Store, now: int, ttl: int): set<string> {
    set uid | uid in s.lastSeen && now - s.lastSeen[uid] > ttl
  }

  function Apply(s: Store, op: Op, ttl: int): Store {
    match op
    case Update(uid, group, at) => Put(s, uid, (if uid in s.groups then s.groups[uid] else {}) + {group}, at)
    case SetGroups(uid, all, at) => Put(s, uid, all, at)
    case Get(uid, at) => if Expired(s, uid, at, ttl) then Remove(s, {uid}) else s
    case Evict(sampled, _) => Remove(s, ExpiredUids(s, sampled, ttl))
  }

  /** What a lookup answers. */
  function Answer(s: Store, uid: string, now: int, ttl: int): Option<set<string>> {
    if uid !in s.groups || Expired(s, uid, now, ttl) then None else Some(s.groups[uid])
  }

  class EudGroupCache {
    var groups: map<string, set<string>>
    var lastSeen: map<string, int>
    const ttl: int

    ghost predicate Valid()
      reads this
    {
      groups.Keys == lastSeen.Keys
    }

    ghost function View(): Store
      reads this
    {
      Store(groups, lastSeen)
    }

    constructor (ttl: int)
      ensures Valid() && View() == EMPTY && this.ttl == ttl
    {
      groups, lastSeen, this.ttl := map[], map[], ttl;
    }

    method UpdateGroup(uid: string, group: string, now: int)
      requires Valid()
      modifies this
      ensures Valid() && View() == Apply(old(View()), Update(uid, group, now), ttl)
    {
      if uid !in groups {
        groups := groups[uid := {}];
      }
      groups := groups[uid := groups[uid] + {group}];
      lastSeen := lastSeen[uid := now];
    }

    method ReplaceGroups(uid: string, all: set<string>, now: int)
      requires Valid()
      modifies this
      ensures Valid() && View() == Apply(old(View()), SetGroups(uid, all, now), ttl)
    {
      groups := groups[uid := all];
      lastSeen := lastSeen[uid := now];
    }

    method GetGroups(uid: string, now: int) returns (found: Option<set<string>>)
      requires Valid()
      modifies this
      ensures Valid() && View() == Apply(old(View()), Get(uid, now), ttl)
      ensures found == Answer(old(View()), uid, now, ttl)
    {
      if uid !in groups {
        return None;
      }
      assert uid in lastSeen;
      if now - lastSeen[uid] > ttl {
        groups := groups - {uid};
        lastSeen := lastSeen - {uid};
        return None;
      }
      return Some(groups[uid]);
    }

    /** Evicts exactly the entries expired at the sampled time, and counts them. */
    method EvictExpired(sampled: int, ghost at: int) returns (count: nat)
      requires Valid()
      modifies this
      ensures Valid() && View() == Apply(old(View()), Evict(sampled, at), ttl)
      ensures count == |ExpiredUids(old(View()), sampled, ttl)|
      ensures |groups| == |old(groups)| - count
    {
      var expired := set uid | uid in lastSeen && sampled - lastSeen[uid] > ttl;
      ghost var start := View();
      assert expired == ExpiredUids(start, sampled, ttl);
      count := 0;
      var left := expired;
      while left != {}
        invariant left <= expired && count == |expired| - |left|
        invariant View() == Remove(start, expired - left)
        decreases left
      {
        var uid :| uid in left;
        RemoveOneMore(start, expired - left, uid);
        assert expired - (left - {uid}) == (expired - left) + {uid};
        groups := groups - {uid};
        lastSeen := lastSeen - {uid};
        left := left - {uid};
        count := count + 1;
      }
      assert expired - {} == expired;
      RemovedSize(start.groups, expired);
    }
  }

  lemma RemoveOneMore(s: Store, done: set<string>, uid: string)
    ensures Remove(Remove(s, done), {uid}) == Remove(s, done + {uid})
  {}

  lemma RemovedSize<T>(m: map<string, T>, gone: set<string>)
    requires gone <= m.Keys
    ensures |m - gone| == |m| - |gone|
  {}

  // ----- whole traces -----

  function Replay(trace: seq<Op>, ttl: int): Store {
    if trace == [] then EMPTY else Apply(Replay(trace[..|trace| - 1], ttl), trace[|trace| - 1], ttl)
  }

  /** The clock never runs back, and sweeps do not sample the future. */
  predicate Timely(trace: seq<Op>) {
    && (forall i, j | 0 <= i < j < |trace| :: trace[i].at <= trace[j].at)
    && (forall i | 0 <= i < |trace| && trace[i].Evict? :: trace[i].sampled <= trace[i].at)
  }

  predicate Writes(op: Op, uid: string) {
    (op.Update? || op.SetGroups?) && op.uid == uid
  }

  /** The writes to one uid, in order. */
  function WritesTo(trace: seq<Op>, uid: string): seq<Op> {
    if trace == [] then []
    else
      var init, last := WritesTo(trace[..|trace| - 1], uid), trace[|trace| - 1];
      if Writes(last, uid) then init + [last] else init
  }

  /** What writes add up to, taken alone: an update adds its group, a replacement starts over. */
  function Fold(writes: seq<Op>): set<string> {
    if writes == [] then {}
    else match writes[|writes| - 1]
      case Update(_, group, _) => Fold(writes[..|writes| - 1]) + {group}
      case SetGroups(_, all, _) => all
      case _ => {}
  }

  /** A write more than a lifetime after the one before it. */
  predicate AfterGap(writes: seq<Op>, k: int, ttl: int) {
    0 < k < |writes| && writes[k].at - writes[k - 1].at > ttl
  }

  /** `writes[k..]` is a stretch of writes that starts at the first one or right after a gap. */
  predicate StartsStretch(writes: seq<Op>, k: int, ttl: int) {
    k == 0 || AfterGap(writes, k, ttl)
  }

  /** Entry for `uid`: absent, with its last write expired by `now` if there was any; or present,
      last renewed by the last write. */
  predicate Accounted(s: Store, writes: seq<Op>, uid: string, now: int, ttl: int) {
    && (uid in s.groups <==> uid in s.lastSeen)
    && (uid !in s.groups ==> writes == [] || now - writes[|writes| - 1].at > ttl)
    && (uid in s.groups ==> writes != [] && s.lastSeen[uid] == writes[|writes| - 1].at)
  }

  lemma {:induction false} WritesAreWrites(trace: seq<Op>, uid: string)
    ensures forall w | w in WritesTo(trace, uid) :: w in trace && Writes(w, uid)
  {
    if trace != [] {
      WritesAreWrites(trace[..|trace| - 1], uid);
      assert forall w | w in trace[..|trace| - 1] :: w in trace;
    }
  }

  lemma AccountedLater(s: Store, writes: seq<Op>, uid: string, now: int, later: int, ttl: int)
    requires Accounted(s, writes, uid, now, ttl) && now <= later
    ensures Accounted(s, writes, uid, later, ttl)
  {}

  lemma AccountedOther(s: Store, writes: seq<Op>, op: Op, uid: string, ttl: int)
    requires !Writes(op, uid) && Accounted(s, writes, uid, op.at, ttl)
    requires op.Evict? ==> op.sampled <= op.at
    ensures Accounted(Apply(s, op, ttl), writes, uid, op.at, ttl)
  {}

  lemma {:induction false} TraceAccounted(trace: seq<Op>, uid: string, now: int, ttl: int)
    requires Timely(trace) && (trace != [] ==> trace[|trace| - 1].at <= now)
    ensures Accounted(Replay(trace, ttl), WritesTo(trace, uid), uid, now, ttl)
  {
    if trace != [] {
      var init, op := trace[..|trace| - 1], trace[|trace| - 1];
      assert Timely(init);
      TraceAccounted(init, uid, op.at, ttl);
      if !Writes(op, uid) {
        AccountedOther(Replay(init, ttl), WritesTo(init, uid), op, uid, ttl);
      }
      AccountedLater(Replay(trace, ttl), WritesTo(trace, uid), uid, op.at, now, ttl);
    }
  }

  /** After any sequence of operations, a lookup answers exactly when the uid was written within
      the last lifetime, and the answer is what its writes from `KeptFrom` on add up to: a stretch
      that starts at the first write or right after a gap. */
  lemma TraceLaw(trace: seq<Op>, uid: string, now: int, ttl: int)
    requires Timely(trace) && (trace != [] ==> trace[|trace| - 1].at <= now)
    ensures var writes, answer := WritesTo(trace, uid), Answer(Replay(trace, ttl), uid, now, ttl);
      && (answer.Some? <==> exists i :: 0 <= i < |writes| && now - writes[i].at <= ttl)
      && (answer.Some? ==>
            var k := KeptFrom(trace, uid, ttl);
            k < |writes| && StartsStretch(writes, k, ttl) && answer.value == Fold(writes[k..]))
  {
    TraceAccounted(trace, uid, now, ttl);
    StoredExactly(trace, uid, ttl);
    if WritesTo(trace, uid) != [] {
      KeptStartsStretch(trace, uid, ttl);
    }
    WritesOrdered(trace, uid);
  }

  lemma {:induction false} WritesOrdered(trace: seq<Op>, uid: string)
    requires Timely(trace)
    ensures forall i, j | 0 <= i < j < |WritesTo(trace, uid)| ::
      WritesTo(trace, uid)[i].at <= WritesTo(trace, uid)[j].at
  {
    if trace != [] {
      var init, last := trace[..|trace| - 1], trace[|trace| - 1];
      assert Timely(init);
      WritesOrdered(init, uid);
      WritesAreWrites(init, uid);
      var ws := WritesTo(init, uid);
      forall i | 0 <= i < |ws| ensures ws[i].at <= last.at {
        assert ws[i] in init;
      }
    }
  }

  /** As long as no two consecutive writes are more than a lifetime apart, nothing is lost: the
      answer is what all the writes add up to. */
  lemma NoGapNoLoss(trace: seq<Op>, uid: string, now: int, ttl: int)
    requires Timely(trace) && (trace != [] ==> trace[|trace| - 1].at <= now)
    requires forall k :: !AfterGap(WritesTo(trace, uid), k, ttl)
    ensures Answer(Replay(trace, ttl), uid, now, ttl).Some? ==>
      Answer(Replay(trace, ttl), uid, now, ttl).value == Fold(WritesTo(trace, uid))
  {
    TraceLaw(trace, uid, now, ttl);
    var writes := WritesTo(trace, uid);
    assert writes[0..] == writes;
  }

  lemma {:induction false} FoldFrom(writes: seq<Op>, g: string)
    requires g in Fold(writes)
    requires forall i | 0 <= i < |writes| :: writes[i].Update? || writes[i].SetGroups?
    ensures exists i :: 0 <= i < |writes| && Grants(writes[i], g)
  {
    var n := |writes| - 1;
    if Grants(writes[n], g) {
      assert 0 <= n < |writes|;
    } else {
      FoldFrom(writes[..n], g);
      var i :| 0 <= i < n && Grants(writes[..n][i], g);
      assert Grants(writes[i], g);
    }
  }

  predicate Grants(op: Op, g: string) {
    (op.Update? && op.group == g) || (op.SetGroups? && g in op.all)
  }

  /** No group is ever answered that was not written for that uid. */
  lemma AnswersWereWritten(trace: seq<Op>, uid: string, now: int, ttl: int, g: string)
    requires Timely(trace) && (trace != [] ==> trace[|trace| - 1].at <= now)
    requires Answer(Replay(trace, ttl), uid, now, ttl).Some? && g in Answer(Replay(trace, ttl), uid, now, ttl).value
    ensures exists i :: 0 <= i < |trace| && Writes(trace[i], uid) && Grants(trace[i], g)
  {
    TraceLaw(trace, uid, now, ttl);
    WritesAreWrites(trace, uid);
    var writes := WritesTo(trace, uid);
    var k := KeptFrom(trace, uid, ttl);
    forall i | 0 <= i < |writes[k..]| ensures Writes(writes[k..][i], uid) {
      assert writes[k..][i] == writes[k + i];
      assert writes[k + i] in writes;
    }
    FoldFrom(writes[k..], g);
    var i :| 0 <= i < |writes[k..]| && Grants(writes[k..][i], g);
    assert writes[k + i] in writes;
    assert writes[k + i] in trace;
  }

  // ----- lazy expiry -----

  /** The start of the last stretch. */
  function LastStretch(writes: seq<Op>, ttl: int): (k: nat)
    requires writes != []
    ensures k < |writes| && StartsStretch(writes, k, ttl)
    ensures forall j | k < j < |writes| :: !AfterGap(writes, j, ttl)
  {
    if |writes| == 1 || AfterGap(writes, |writes| - 1, ttl) then |writes| - 1
    else
      var init := writes[..|writes| - 1];
      var k := LastStretch(init, ttl);
      assert forall j | k < j < |init| :: AfterGap(writes, j, ttl) == AfterGap(init, j, ttl);
      k
  }

  /** Two updates of one uid, a thousand ticks apart. */
  function TwoUpdates(): seq<Op> {
    [Update("u", "old", 0), Update("u", "new", 1000)]
  }

  lemma TwoUpdatesLazy()
    ensures Answer(Replay(TwoUpdates(), 300), "u", 1000, 300) == Some({"old", "new"})
  {
    var a, b := Update("u", "old", 0), Update("u", "new", 1000);
    assert TwoUpdates()[..1] == [a] && [a][..0] == [];
    assert {} + {"old"} == {"old"};
    assert Replay([a], 300) == Put(EMPTY, "u", {"old"}, 0);
    assert Replay(TwoUpdates(), 300) == Put(Put(EMPTY, "u", {"old"}, 0), "u", {"old"} + {"new"}, 1000);
    assert {"old"} + {"new"} == {"old", "new"};
  }

  lemma EagerForgetsOne(a: Op, now: int, ttl: int)
    requires a.Update? && 0 <= ttl < now - a.at
    ensures Answer(Eager([a], ttl), a.uid, now, ttl).None?
  {
    assert [a][..0] == [] && WritesTo([a], a.uid) == [a];
    EagerAnswers([a], a.uid, now, ttl);
  }

  lemma EagerForgets(trace: seq<Op>, ttl: int)
    requires Timely(trace) && trace != [] && trace[|trace| - 1].Update? && ttl >= 0
    requires var b := trace[|trace| - 1]; Answer(Eager(trace[..|trace| - 1], ttl), b.uid, b.at, ttl).None?
    ensures var b := trace[|trace| - 1]; Answer(Eager(trace, ttl), b.uid, b.at, ttl) == Some({b.group})
  {
    var b := trace[|trace| - 1];
    EagerAnswersWrite(trace, b.at, ttl);
    assert {} + {b.group} == {b.group};
  }

  /** Expiry is lazy: an update that reaches an expired entry before anything swept it renews
      the old groups too. Here a group last written more than a lifetime ago is answered, which a
      cache that forgets at the tick of expiry does not answer. */
  lemma ExpiredGroupsCanReturn()
    ensures Timely(TwoUpdates())
    ensures Answer(Replay(TwoUpdates(), 300), "u", 1000, 300) == Some({"old", "new"})
    ensures Answer(Eager(TwoUpdates(), 300), "u", 1000, 300) == Some({"new"})
  {
    TwoUpdatesLazy();
    EagerForgetsOne(TwoUpdates()[0], 1000, 300);
    assert TwoUpdates()[..1] == [TwoUpdates()[0]];
    EagerForgets(TwoUpdates(), 300);
  }

  /** An operation that finds the entry expired and removes it. */
  predicate Purges(op: Op, uid: string, lastWrite: int, ttl: int) {
    || (op.Get? && op.uid == uid && op.at - lastWrite > ttl)
    || (op.Evict? && op.sampled - lastWrite > ttl)
  }

  /** Whether the entry was purged after the last write to `uid`. */
  predicate PurgedSince(trace: seq<Op>, uid: string, ttl: int) {
    trace != [] &&
    var init, last := trace[..|trace| - 1], trace[|trace| - 1];
    if Writes(last, uid) then false
    else
      var writes := WritesTo(init, uid);
      PurgedSince(init, uid, ttl) || (writes != [] && Purges(last, uid, writes[|writes| - 1].at, ttl))
  }

  /** Every write that comes after a gap finds the entry already purged. */
  predicate SweptInTime(trace: seq<Op>, uid: string, ttl: int) {
    trace == [] ||
    var init, last := trace[..|trace| - 1], trace[|trace| - 1];
    var writes := WritesTo(trace, uid);
    SweptInTime(init, uid, ttl)
    && (Writes(last, uid) && AfterGap(writes, |writes| - 1, ttl) ==> PurgedSince(init, uid, ttl))
  }

  lemma {:induction false} AbsentExactly(trace: seq<Op>, uid: string, ttl: int)
    ensures var s := Replay(trace, ttl);
      && (uid in s.groups <==> uid in s.lastSeen)
      && (uid in s.groups <==> WritesTo(trace, uid) != [] && !PurgedSince(trace, uid, ttl))
      && (uid in s.groups ==> s.lastSeen[uid] == WritesTo(trace, uid)[|WritesTo(trace, uid)| - 1].at)
  {
    if trace != [] {
      AbsentExactly(trace[..|trace| - 1], uid, ttl);
    }
  }

  /** Where the write is, among the writes to `uid`, that last found no entry: what is stored
      goes back to it. */
  function KeptFrom(trace: seq<Op>, uid: string, ttl: int): nat {
    if trace == [] then 0
    else
      var init, last := trace[..|trace| - 1], trace[|trace| - 1];
      if Writes(last, uid) && (WritesTo(init, uid) == [] || PurgedSince(init, uid, ttl))
      then |WritesTo(init, uid)| else KeptFrom(init, uid, ttl)
  }

  lemma FoldSnoc(writes: seq<Op>, k: nat, last: Op)
    requires k <= |writes| && (last.Update? || last.SetGroups?)
    ensures Fold((writes + [last])[k..]) == if last.SetGroups? then last.all else Fold(writes[k..]) + {last.group}
  {
    var all := writes + [last];
    assert all[k..] == writes[k..] + [last];
    assert all[k..][..|all[k..]| - 1] == writes[k..];
  }

  /** What is stored is what the writes since then add up to, no more and no less. */
  lemma {:induction false} StoredExactly(trace: seq<Op>, uid: string, ttl: int)
    ensures WritesTo(trace, uid) != [] ==> KeptFrom(trace, uid, ttl) < |WritesTo(trace, uid)|
    ensures var s, writes, k := Replay(trace, ttl), WritesTo(trace, uid), KeptFrom(trace, uid, ttl);
      uid in s.groups ==> k < |writes| && s.groups[uid] == Fold(writes[k..])
  {
    if trace != [] {
      var init, last := trace[..|trace| - 1], trace[|trace| - 1];
      StoredExactly(init, uid, ttl);
      AbsentExactly(init, uid, ttl);
      AbsentExactly(trace, uid, ttl);
      if Writes(last, uid) {
        FoldSnoc(WritesTo(init, uid), KeptFrom(trace, uid, ttl), last);
        assert WritesTo(init, uid)[|WritesTo(init, uid)|..] == [];
      }
    }
  }

  /** That write is the first one ever or comes after a gap, so it is not later than the start of
      the last stretch. */
  lemma {:induction false} KeptStartsStretch(trace: seq<Op>, uid: string, ttl: int)
    requires Timely(trace) && WritesTo(trace, uid) != []
    ensures StartsStretch(WritesTo(trace, uid), KeptFrom(trace, uid, ttl), ttl)
    ensures KeptFrom(trace, uid, ttl) <= LastStretch(WritesTo(trace, uid), ttl)
  {
    var init, last := trace[..|trace| - 1], trace[|trace| - 1];
    assert Timely(init);
    var writes := WritesTo(init, uid);
    if writes != [] {
      KeptStartsStretch(init, uid, ttl);
      if Writes(last, uid) {
        AbsentExactly(init, uid, ttl);
        TraceAccounted(init, uid, last.at, ttl);
      }
    }
  }

  predicate Replaces(writes: seq<Op>) {
    exists i | 0 <= i < |writes| :: writes[i].SetGroups?
  }

  predicate AllWrites(writes: seq<Op>) {
    forall i | 0 <= i < |writes| :: writes[i].Update? || writes[i].SetGroups?
  }

  /** Earlier writes show unless a later one replaces everything. */
  lemma {:induction false} FoldConcat(a: seq<Op>, b: seq<Op>)
    requires AllWrites(b)
    ensures Fold(a + b) == if Replaces(b) then Fold(b) else Fold(a) + Fold(b)
  {
    if b == [] {
      assert a + b == a;
    } else {
      var init, last := b[..|b| - 1], b[|b| - 1];
      FoldConcat(a, init);
      assert (a + b)[..|a + b| - 1] == a + init;
      assert b == init + [last];
    }
  }

  /** A cache that forgets at the tick of expiry: everything expired is gone before an operation
      takes effect. */
  function Eager(trace: seq<Op>, ttl: int): Store {
    if trace == [] then EMPTY
    else
      var s, op := Eager(trace[..|trace| - 1], ttl), trace[|trace| - 1];
      Apply(Remove(s, ExpiredUids(s, op.at, ttl)), op, ttl)
  }

  /** What such a cache is to answer: the groups of the last stretch, while it lasts. */
  function LastStretchAt(writes: seq<Op>, now: int, ttl: int): Option<set<string>> {
    if writes == [] || now - writes[|writes| - 1].at > ttl then None
    else Some(Fold(writes[LastStretch(writes, ttl)..]))
  }

  lemma LastStretchSnoc(writes: seq<Op>, last: Op, ttl: int)
    ensures LastStretch(writes + [last], ttl)
      == if writes == [] || AfterGap(writes + [last], |writes|, ttl) then |writes| else LastStretch(writes, ttl)
  {
    assert (writes + [last])[..|writes|] == writes;
  }

  lemma StretchAfterWrite(writes: seq<Op>, w: Op, ttl: int)
    requires w.Update? || w.SetGroups?
    ensures var before := LastStretchAt(writes, w.at, ttl);
      Fold((writes + [w])[LastStretch(writes + [w], ttl)..])
      == Written(before, w)
  {
    LastStretchSnoc(writes, w, ttl);
    FoldSnoc(writes, LastStretch(writes + [w], ttl), w);
    assert writes[|writes|..] == [];
  }

  predicate Consistent(s: Store) {
    s.groups.Keys == s.lastSeen.Keys
  }

  /** Forgetting what is expired changes no answer from then on. */
  lemma ForgettingIsSilent(s: Store, uid: string, at: int, now: int, ttl: int)
    requires Consistent(s) && at <= now
    ensures var s' := Remove(s, ExpiredUids(s, at, ttl));
      && Consistent(s') && Answer(s', uid, now, ttl) == Answer(s, uid, now, ttl)
      && (uid in s'.groups <==> Answer(s, uid, at, ttl).Some?)
      && (uid in s'.groups ==> s'.groups[uid] == Answer(s, uid, at, ttl).value)
  {}

  lemma OtherOpsAreSilent(s: Store, op: Op, uid: string, now: int, ttl: int)
    requires Consistent(s) && op.at <= now && !Writes(op, uid) && (op.Evict? ==> op.sampled <= op.at)
    ensures Consistent(Apply(s, op, ttl)) && Answer(Apply(s, op, ttl), uid, now, ttl) == Answer(s, uid, now, ttl)
  {}

  /** A write adds to what is answered at that time, or replaces it. */
  function Written(before: Option<set<string>>, w: Op): set<string>
    requires w.Update? || w.SetGroups?
  {
    if w.SetGroups? then w.all else (if before.None? then {} else before.value) + {w.group}
  }

  lemma WriteAnswers(s: Store, w: Op, now: int, ttl: int)
    requires Consistent(s) && (w.Update? || w.SetGroups?) && w.at <= now
    ensures var s' := Apply(Remove(s, ExpiredUids(s, w.at, ttl)), w, ttl);
      && Consistent(s')
      && Answer(s', w.uid, now, ttl)
        == if now - w.at > ttl then None else Some(Written(Answer(s, w.uid, w.at, ttl), w))
  {
    ForgettingIsSilent(s, w.uid, w.at, now, ttl);
  }

  lemma EagerAnswersWrite(trace: seq<Op>, now: int, ttl: int)
    requires Timely(trace) && trace != []
    requires trace[|trace| - 1].Update? || trace[|trace| - 1].SetGroups?
    requires trace[|trace| - 1].at <= now
    ensures var w := trace[|trace| - 1];
      var before := Answer(Eager(trace[..|trace| - 1], ttl), w.uid, w.at, ttl);
      Answer(Eager(trace, ttl), w.uid, now, ttl) == if now - w.at > ttl then None else Some(Written(before, w))
  {
    EagerAnswers(trace[..|trace| - 1], "", trace[|trace| - 1].at, ttl);
    WriteAnswers(Eager(trace[..|trace| - 1], ttl), trace[|trace| - 1], now, ttl);
  }

  /** It does answer so, after any timely operations. */
  lemma {:induction false} EagerAnswers(trace: seq<Op>, uid: string, now: int, ttl: int)
    requires Timely(trace) && (trace != [] ==> trace[|trace| - 1].at <= now)
    ensures Consistent(Eager(trace, ttl))
    ensures Answer(Eager(trace, ttl), uid, now, ttl) == LastStretchAt(WritesTo(trace, uid), now, ttl)
  {
    if trace != [] {
      var init, op := trace[..|trace| - 1], trace[|trace| - 1];
      assert Timely(init);
      var s := Eager(init, ttl);
      EagerAnswers(init, uid, now, ttl);
      EagerAnswers(init, uid, op.at, ttl);
      if Writes(op, uid) {
        StretchAfterWrite(WritesTo(init, uid), op, ttl);
        WriteAnswers(s, op, now, ttl);
      } else {
        ForgettingIsSilent(s, uid, op.at, now, ttl);
        OtherOpsAreSilent(Remove(s, ExpiredUids(s, op.at, ttl)), op, uid, now, ttl);
      }
    }
  }

  /** Laziness shows, or it does not. After any timely operations both caches answer at the same
      times, and they give the same answer if and only if the last stretch replaces everything at
      some point, or what was carried over from before it is in it anyway. */
  lemma {:induction false} LazyIsEagerExactly(trace: seq<Op>, uid: string, now: int, ttl: int)
    requires Timely(trace) && (trace != [] ==> trace[|trace| - 1].at <= now)
    ensures var lazy, eager := Answer(Replay(trace, ttl), uid, now, ttl), Answer(Eager(trace, ttl), uid, now, ttl);
      && (lazy.Some? <==> eager.Some?)
      && (lazy.Some? ==>
            var writes, k := WritesTo(trace, uid), KeptFrom(trace, uid, ttl);
            && writes != [] && k <= LastStretch(writes, ttl)
            && var j := LastStretch(writes, ttl);
            lazy == eager <==> Replaces(writes[j..]) || Fold(writes[k..j]) <= Fold(writes[j..]))
  {
    EagerAnswers(trace, uid, now, ttl);
    TraceAccounted(trace, uid, now, ttl);
    StoredExactly(trace, uid, ttl);
    if WritesTo(trace, uid) != [] {
      KeptStartsStretch(trace, uid, ttl);
      AllAreWrites(trace, uid);
      var writes, k, j := WritesTo(trace, uid), KeptFrom(trace, uid, ttl), LastStretch(WritesTo(trace, uid), ttl);
      FoldSplit(writes, k, j);
      AddsNothing(Fold(writes[k..j]), Fold(writes[j..]));
    }
  }

  lemma AddsNothing<T>(a: set<T>, b: set<T>)
    ensures a + b == b <==> a <= b
  {}

  lemma {:induction false} AllAreWrites(trace: seq<Op>, uid: string)
    ensures AllWrites(WritesTo(trace, uid))
  {
    if trace != [] {
      AllAreWrites(trace[..|trace| - 1], uid);
    }
  }

  lemma FoldSplit(writes: seq<Op>, k: nat, j: nat)
    requires k <= j <= |writes| && AllWrites(writes)
    ensures Fold(writes[k..])
      == if Replaces(writes[j..]) then Fold(writes[j..]) else Fold(writes[k..j]) + Fold(writes[j..])
  {
    assert writes[k..] == writes[k..j] + writes[j..];
    FoldConcat(writes[k..j], writes[j..]);
  }

  /** When every write after a gap finds the entry swept, nothing is carried over: what is stored
      goes back just to the start of the last stretch. */
  lemma {:induction false} SweptKeepsLast(trace: seq<Op>, uid: string, ttl: int)
    requires Timely(trace) && SweptInTime(trace, uid, ttl) && WritesTo(trace, uid) != []
    ensures KeptFrom(trace, uid, ttl) == LastStretch(WritesTo(trace, uid), ttl)
  {
    var init, last := trace[..|trace| - 1], trace[|trace| - 1];
    assert Timely(init);
    var writes := WritesTo(init, uid);
    if writes != [] {
      SweptKeepsLast(init, uid, ttl);
      if Writes(last, uid) {
        assert (writes + [last])[..|writes|] == writes;
        AbsentExactly(init, uid, ttl);
        TraceAccounted(init, uid, last.at, ttl);
      }
    }
  }

  /** So laziness does not show at all when sweeps come in time. */
  lemma SweptIsEager(trace: seq<Op>, uid: string, now: int, ttl: int)
    requires Timely(trace) && (trace != [] ==> trace[|trace| - 1].at <= now)
    requires SweptInTime(trace, uid, ttl)
    ensures Answer(Replay(trace, ttl), uid, now, ttl) == Answer(Eager(trace, ttl), uid, now, ttl)
  {
    LazyIsEagerExactly(trace, uid, now, ttl);
    if WritesTo(trace, uid) != [] {
      SweptKeepsLast(trace, uid, ttl);
      var j := LastStretch(WritesTo(trace, uid), ttl);
      assert WritesTo(trace, uid)[j..j] == [];
    }
  }
}
