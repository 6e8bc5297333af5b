/** The bus between the federation engine and the local server: what an event from a peer is
    published as, and which local events are relayed to peers with which groups. */
module OtsBus {
  import opened Wrappers
  import opened Cot
  import C = Codec
  import D = Dedup
  import L = LoopFilter
  import G = EudGroupCache

  // ----- publishing an event from a peer -----

  type PointElem = e: Elem | e.tag == "point" witness Elem("point", map[], [])

  type DetailElem = e: Elem | e.tag == "detail" witness Elem("detail", map[], [])

  /** An event from a peer, as the local server sees it. */
  datatype PeerEvent = PeerEvent(
    attrs: map<string, string>, point: PointElem, detail: Option<DetailElem>, meta: Option<C.FedMeta>)

  datatype Exchange = Dms | GroupTopics | CotParser

  datatype Publication = Publication(exchange: Exchange, key: string, uid: string, cot: L.Document)

  /** The group database: None when none is configured; a lookup in it may fail. */
  type Directory = Option<string -> Option<set<string>>>

  function ToXml(evt: PeerEvent): L.Document {
    L.Parsed(Elem("event", evt.attrs, [evt.point] + match evt.detail case None => [] case Some(d) => [d]))
  }

  function Uid(evt: PeerEvent): string {
    if "uid" in evt.attrs then evt.attrs["uid"] else ""
  }

  function BodyOf(evt: PeerEvent, serverId: string): L.Document {
    if evt.meta.None? then ToXml(evt) else L.Stamped(ToXml(evt), serverId, evt.meta.value)
  }

  /** The destinations an event names; one without a callsign counts as a destination too. */
  function Dests(children: seq<Elem>): seq<string> {
    if children == [] then []
    else
      var init, last := Dests(children[..|children| - 1]), children[|children| - 1];
      if last.tag == "dest" then init + [Attr(last, "callsign", "")] else init
  }

  function Addressees(evt: PeerEvent): seq<string> {
    if evt.detail.None? then []
    else match Find(evt.detail.value.children, "marti")
      case None => []
      case Some(marti) => Dests(marti.children)
  }

  /** A callsign can be reached from `groups` when the database knows it and shares a group. */
  predicate Reachable(dir: Directory, callsign: string, groups: set<string>) {
    dir.Some? && dir.value(callsign).Some? && dir.value(callsign).value * groups != {}
  }

  predicate Deliverable(dir: Directory, callsign: string, groups: set<string>) {
    callsign != "" && Reachable(dir, callsign, groups)
  }

  function DirectPlan(dests: seq<string>, dir: Directory, groups: set<string>, uid: string,
                      cot: L.Document): seq<Publication> {
    if dests == [] then []
    else
      var init, last := DirectPlan(dests[..|dests| - 1], dir, groups, uid, cot), dests[|dests| - 1];
      if Deliverable(dir, last, groups) then init + [Publication(Dms, last, uid, cot)] else init
  }

  function GroupPlan(list: seq<string>, uid: string, cot: L.Document): seq<Publication> {
    seq(|list|, i requires 0 <= i < |list| => Publication(GroupTopics, list[i] + ".OUT", uid, cot))
  }

  /** The publications that address an event's receivers. */
  function Receivers(evt: PeerEvent, groups: set<string>, list: seq<string>, dir: Directory, uid: string,
                     cot: L.Document): seq<Publication> {
    if Addressees(evt) != [] then DirectPlan(Addressees(evt), dir, groups, uid, cot) else GroupPlan(list, uid, cot)
  }

  /** Everything that is to be published for an event; `list` is the order its groups come in. */
  function Plan(evt: PeerEvent, groups: set<string>, list: seq<string>, dir: Directory, alsoParser: bool,
                serverId: string): seq<Publication> {
    var uid, cot := Uid(evt), BodyOf(evt, serverId);
    var parser := [Publication(CotParser, "cot_parser", uid, cot)];
    if groups == {} then parser
    else Receivers(evt, groups, list, dir, uid, cot) + if alsoParser then parser else []
  }

  /** `list` names every group of the set once. */
  predicate Enumerates(list: seq<string>, groups: set<string>) {
    multiset(list) == multiset(groups)
  }

  /** Direct messages go to exactly the destinations that can be reached, each as often as it is
      named. */
  lemma {:induction false} DirectPlanExact(dests: seq<string>, dir: Directory, groups: set<string>, uid: string,
                                           cot: L.Document, p: Publication)
    ensures multiset(DirectPlan(dests, dir, groups, uid, cot))[p]
      == if p == Publication(Dms, p.key, uid, cot) && Deliverable(dir, p.key, groups) then multiset(dests)[p.key] else 0
  {
    if dests != [] {
      DirectPlanExact(dests[..|dests| - 1], dir, groups, uid, cot, p);
      assert dests == dests[..|dests| - 1] + [dests[|dests| - 1]];
    }
  }

  /** And in the order they are named in: those of a first part come before those of the rest. */
  lemma {:induction false} DirectPlanInOrder(a: seq<string>, b: seq<string>, dir: Directory, groups: set<string>,
                                             uid: string, cot: L.Document)
    ensures DirectPlan(a + b, dir, groups, uid, cot)
      == DirectPlan(a, dir, groups, uid, cot) + DirectPlan(b, dir, groups, uid, cot)
  {
    if b == [] {
      assert a + b == a;
    } else {
      var init := b[..|b| - 1];
      assert (a + b)[..|a + b| - 1] == a + init;
      DirectPlanInOrder(a, init, dir, groups, uid, cot);
    }
  }

  /** Where the event names its receivers: the first `marti` child of its detail. */
  predicate MartiAt(evt: PeerEvent, m: int) {
    && evt.detail.Some? && 0 <= m < |evt.detail.value.children| && evt.detail.value.children[m].tag == "marti"
    && forall j | 0 <= j < m :: evt.detail.value.children[j].tag != "marti"
  }

  /** The places under a `marti` element that name a callsign. */
  function Naming(children: seq<Elem>, callsign: string): set<nat> {
    set i: nat | i < |children| && NamesCallsign(children[i], callsign)
  }

  predicate NamesCallsign(e: Elem, callsign: string) {
    e.tag == "dest" && "callsign" in e.attrs && e.attrs["callsign"] == callsign
  }

  predicate HasDest(children: seq<Elem>) {
    exists i | 0 <= i < |children| :: children[i].tag == "dest"
  }

  ghost predicate Directed(evt: PeerEvent) {
    exists m :: MartiAt(evt, m) && HasDest(evt.detail.value.children[m].children)
  }

  /** How often an event names a callsign. */
  ghost function TimesNamed(evt: PeerEvent, callsign: string): nat {
    if !Directed(evt) then 0
    else
      var m :| MartiAt(evt, m);
      |Naming(evt.detail.value.children[m].children, callsign)|
  }

  lemma NamingSnoc(init: seq<Elem>, last: Elem, callsign: string)
    ensures |Naming(init + [last], callsign)|
      == |Naming(init, callsign)| + if NamesCallsign(last, callsign) then 1 else 0
  {
    var all, n: nat := init + [last], |init|;
    assert n !in Naming(init, callsign);
    if NamesCallsign(last, callsign) {
      assert Naming(all, callsign) == Naming(init, callsign) + {n};
    } else {
      assert Naming(all, callsign) == Naming(init, callsign);
    }
  }

  lemma HasDestSnoc(init: seq<Elem>, last: Elem)
    ensures HasDest(init + [last]) <==> HasDest(init) || last.tag == "dest"
  {
    var all := init + [last];
    assert all[|init|] == last && forall i | 0 <= i < |init| :: all[i] == init[i];
  }

  lemma {:induction false} DestsExact(children: seq<Elem>, callsign: string)
    requires callsign != ""
    ensures multiset(Dests(children))[callsign] == |Naming(children, callsign)|
    ensures Dests(children) == [] <==> !HasDest(children)
  {
    if children != [] {
      var n := |children| - 1;
      var init, last := children[..n], children[n];
      DestsExact(init, callsign);
      NamingSnoc(init, last, callsign);
      HasDestSnoc(init, last);
      assert children == init + [last];
    }
  }

  lemma {:induction false} FindAt(children: seq<Elem>, tag: string, i: nat)
    requires i <= |children| && forall j | 0 <= j < i :: children[j].tag != tag
    requires i < |children| ==> children[i].tag == tag
    ensures Find(children, tag) == if i < |children| then Some(children[i]) else None
  {
    if i > 0 {
      FindAt(children[1..], tag, i - 1);
    }
  }

  /** The addressees are those the first `marti` names. */
  lemma AddresseesExact(evt: PeerEvent, callsign: string)
    requires callsign != ""
    ensures Addressees(evt) == [] <==> !Directed(evt)
    ensures multiset(Addressees(evt))[callsign] == TimesNamed(evt, callsign)
  {
    if m :| MartiAt(evt, m) {
      FindAt(evt.detail.value.children, "marti", m);
      DestsExact(evt.detail.value.children[m].children, callsign);
      assert forall k | MartiAt(evt, k) :: k == m;
    } else if evt.detail.Some? {
      NoMarti(evt, |evt.detail.value.children|);
      FindAt(evt.detail.value.children, "marti", |evt.detail.value.children|);
    }
  }

  lemma {:induction false} NoMarti(evt: PeerEvent, n: nat)
    requires evt.detail.Some? && n <= |evt.detail.value.children| && forall m :: !MartiAt(evt, m)
    ensures forall j | 0 <= j < n :: evt.detail.value.children[j].tag != "marti"
  {
    if n > 0 {
      NoMarti(evt, n - 1);
      assert !MartiAt(evt, n - 1);
    }
  }

  /** What is published is the event: its attributes, its point, its detail, and with a sidecar
      the two stamps at the end of the detail. */
  lemma BodyIsTheEvent(evt: PeerEvent, serverId: string)
    ensures var body, inside := BodyOf(evt, serverId), if evt.detail.None? then [] else evt.detail.value.children;
      && body.Parsed? && body.root.tag == "event" && body.root.attrs == evt.attrs
      && body.root.children[..1] == [evt.point]
      && (evt.meta.None? ==> body.root.children[1..] == if evt.detail.None? then [] else [evt.detail.value])
      && (evt.meta.Some? ==>
          && |body.root.children| == 2 && body.root.children[1].tag == "detail"
          && body.root.children[1].attrs == (if evt.detail.None? then map[] else evt.detail.value.attrs)
          && |body.root.children[1].children| == |inside| + 2 && body.root.children[1].children[..|inside|] == inside
          && body.root.children[1].children[|inside|].tag == "_fedprov"
          && body.root.children[1].children[|inside| + 1].tag == "_fedhops")
  {
    if evt.meta.Some? {
      var root := ToXml(evt).root;
      L.StampedExactly(root, serverId, evt.meta.value);
      assert L.IndexOf(root.children, "detail") == 1;
    }
  }

  function Topic(group: string): string {
    group + ".OUT"
  }

  lemma TopicsDiffer(g: string, h: string)
    ensures Topic(g) == Topic(h) <==> g == h
  {
    assert Topic(g)[..|g|] == g && Topic(h)[..|h|] == h;
    if Topic(g) == Topic(h) {
      assert |g| == |h|;
    }
  }

  lemma {:induction false} GroupPlanExact(list: seq<string>, uid: string, cot: L.Document, g: string)
    ensures multiset(GroupPlan(list, uid, cot))[Publication(GroupTopics, Topic(g), uid, cot)] == multiset(list)[g]
  {
    if list != [] {
      var init, last := list[..|list| - 1], list[|list| - 1];
      GroupPlanExact(init, uid, cot, g);
      TopicsDiffer(g, last);
      assert list == init + [last];
      assert GroupPlan(list, uid, cot) == GroupPlan(init, uid, cot) + [Publication(GroupTopics, Topic(last), uid, cot)];
    }
  }

  /** The database answers for the callsign, with one of the groups. */
  ghost predicate SharesGroup(dir: Directory, callsign: string, groups: set<string>) {
    dir.Some? && dir.value(callsign).Some? && exists g :: g in groups && g in dir.value(callsign).value
  }

  /** How often a publication is to be made for an event. */
  ghost function Due(p: Publication, evt: PeerEvent, groups: set<string>, dir: Directory, alsoParser: bool,
                     serverId: string): nat {
    if p.cot != BodyOf(evt, serverId) || p.uid != (if "uid" in evt.attrs then evt.attrs["uid"] else "") then 0
    else match p.exchange
      case CotParser => if p.key == "cot_parser" && (groups == {} || alsoParser) then 1 else 0
      case Dms => if p.key != "" && SharesGroup(dir, p.key, groups) then TimesNamed(evt, p.key) else 0
      case GroupTopics => if !Directed(evt) && exists g :: g in groups && p.key == g + ".OUT" then 1 else 0
  }

  lemma DeliverableExact(dir: Directory, callsign: string, groups: set<string>)
    ensures Deliverable(dir, callsign, groups) <==> callsign != "" && SharesGroup(dir, callsign, groups)
  {
    if SharesGroup(dir, callsign, groups) {
      var g :| g in groups && g in dir.value(callsign).value;
      assert g in dir.value(callsign).value * groups;
    }
  }

  lemma ReceiversExact(evt: PeerEvent, groups: set<string>, list: seq<string>, dir: Directory, serverId: string,
                       p: Publication)
    requires Enumerates(list, groups) && groups != {}
    ensures multiset(Receivers(evt, groups, list, dir, Uid(evt), BodyOf(evt, serverId)))[p]
      == Due(p, evt, groups, dir, false, serverId)
  {
    var uid, cot := Uid(evt), BodyOf(evt, serverId);
    DeliverableExact(dir, p.key, groups);
    AddresseesExact(evt, if p.key != "" then p.key else "?");
    if Addressees(evt) != [] {
      DirectPlanExact(Addressees(evt), dir, groups, uid, cot, p);
    } else {
      TopicsExact(groups, list, uid, cot, p);
    }
  }

  lemma TopicsExact(groups: set<string>, list: seq<string>, uid: string, cot: L.Document, p: Publication)
    requires Enumerates(list, groups)
    ensures multiset(GroupPlan(list, uid, cot))[p]
      == if p == Publication(GroupTopics, p.key, uid, cot) && exists g :: g in groups && p.key == Topic(g) then 1 else 0
  {
    var topics := GroupPlan(list, uid, cot);
    if p in topics {
      var i :| 0 <= i < |topics| && topics[i] == p;
      assert list[i] in multiset(list);
      GroupPlanExact(list, uid, cot, list[i]);
    } else if p == Publication(GroupTopics, p.key, uid, cot) && exists g :: g in groups && p.key == Topic(g) {
      var g :| g in groups && p.key == Topic(g);
      GroupPlanExact(list, uid, cot, g);
    }
  }

  /** Who gets an event, and how often. Without groups, the local parser alone. With groups, an
      addressed event goes straight to exactly those named callsigns that are reachable from the
      groups the peer was admitted into, once for each time it is named, and never to a whole
      group; any other goes to exactly the topics of those groups, once each. The parser is added
      only if asked for, and everyone gets the same stamped text. */
  lemma PlanExact(evt: PeerEvent, groups: set<string>, list: seq<string>, dir: Directory, alsoParser: bool,
                  serverId: string, p: Publication)
    requires Enumerates(list, groups)
    ensures multiset(Plan(evt, groups, list, dir, alsoParser, serverId))[p]
      == Due(p, evt, groups, dir, alsoParser, serverId)
  {
    if groups != {} {
      ReceiversExact(evt, groups, list, dir, serverId, p);
    }
  }

  /** The parser comes last, so a failure before it keeps the event from it. */
  lemma ParserComesLast(evt: PeerEvent, groups: set<string>, list: seq<string>, dir: Directory, alsoParser: bool,
                        serverId: string)
    requires Enumerates(list, groups)
    ensures var plan := Plan(evt, groups, list, dir, alsoParser, serverId);
      forall i | 0 <= i < |plan| :: plan[i].exchange == CotParser ==> i == |plan| - 1
  {
    var plan := Plan(evt, groups, list, dir, alsoParser, serverId);
    var parts := Receivers(evt, groups, list, dir, Uid(evt), BodyOf(evt, serverId));
    if groups != {} {
      forall i | 0 <= i < |parts| ensures parts[i].exchange != CotParser {
        assert parts[i] in multiset(parts);
        ReceiversExact(evt, groups, list, dir, serverId, parts[i]);
      }
    }
  }

  // ----- the publish channel -----

  /** The publish side of the bus: whether its channel is open, how many publishes in a row have
      failed, whether a stop signal is wired and set, and what the broker has accepted. */
  datatype Channel = Channel(open: bool, fails: nat, wired: bool, stop: bool, published: seq<Publication>)

  /** One injection: the publications planned, the one (if any) that fails, and whether a
      reconnect would succeed. */
  datatype Injection = Injection(plan: seq<Publication>, failAt: Option<nat>, reconnects: bool)

  predicate Fails(i: Injection) {
    i.failAt.Some? && i.failAt.value < |i.plan|
  }

  function Inject(c: Channel, i: Injection, threshold: int): Channel {
    if !c.open then c
    else if !Fails(i) then c.(published := c.published + i.plan, fails := 0)
    else
      var c1 := c.(published := c.published + i.plan[..i.failAt.value], fails := c.fails + 1);
      if c1.fails < threshold then c1
      else if i.reconnects then c1.(fails := 0)
      else c1.(open := false, stop := c1.stop || c1.wired)
  }

  /** What happens to the publish side: the connection is opened, the engine's stop signal is
      wired up, set already or not, somebody else sets that signal, or an event is injected. */
  datatype ChannelOp = Connected | Wired(alreadySet: bool) | StopRequested | Injected(injection: Injection)

  function Take(c: Channel, op: ChannelOp, threshold: int): Channel {
    match op
    case Connected => c.(open := true)
    case Wired(alreadySet) => c.(wired := true, stop := alreadySet)
    case StopRequested => c.(stop := c.stop || c.wired)
    case Injected(i) => Inject(c, i, threshold)
  }

  const UNOPENED := Channel(false, 0, false, false, [])

  function TakeAll(run: seq<ChannelOp>, threshold: int): Channel {
    if run == [] then UNOPENED else Take(TakeAll(run[..|run| - 1], threshold), run[|run| - 1], threshold)
  }

  /** The channel is closed, or the failures in a row are below the threshold (or none). */
  predicate Healthy(c: Channel, threshold: int) {
    !c.open || c.fails == 0 || c.fails < threshold
  }

  /** What one operation puts out: all of an injection's plan, or a proper prefix of it. */
  function Output(c: Channel, op: ChannelOp): seq<Publication> {
    if !op.Injected? || !c.open then []
    else if Fails(op.injection) then op.injection.plan[..op.injection.failAt.value]
    else op.injection.plan
  }

  function Outputs(run: seq<ChannelOp>, threshold: int): seq<Publication> {
    if run == [] then []
    else
      var init := run[..|run| - 1];
      Outputs(init, threshold) + Output(TakeAll(init, threshold), run[|run| - 1])
  }

  /** The connection is opened once at most. */
  predicate ConnectedOnce(run: seq<ChannelOp>) {
    forall i, j | 0 <= i < j < |run| :: !(run[i].Connected? && run[j].Connected?)
  }

  predicate Unconnected(run: seq<ChannelOp>) {
    forall i | 0 <= i < |run| :: !run[i].Connected?
  }

  lemma {:induction false} UnconnectedRuns(run: seq<ChannelOp>, threshold: int)
    requires Unconnected(run)
    ensures !TakeAll(run, threshold).open && TakeAll(run, threshold).fails == 0
  {
    if run != [] {
      UnconnectedRuns(run[..|run| - 1], threshold);
    }
  }

  lemma TakeStep(c: Channel, op: ChannelOp, threshold: int)
    requires Healthy(c, threshold) && (op.Connected? ==> c.fails == 0)
    ensures Healthy(Take(c, op, threshold), threshold)
    ensures Take(c, op, threshold).published == c.published + Output(c, op)
  {}

  /** Over any run of connecting (once, as the engine does), wiring, stops and injections, whatever fails:
      the channel stays healthy, and the broker has exactly the outputs of the injections in
      order, each whole or cut at its failure. */
  lemma {:induction false} InjectionRuns(run: seq<ChannelOp>, threshold: int)
    requires ConnectedOnce(run)
    ensures Healthy(TakeAll(run, threshold), threshold)
    ensures TakeAll(run, threshold).published == Outputs(run, threshold)
  {
    if run != [] {
      var init, op := run[..|run| - 1], run[|run| - 1];
      InjectionRuns(init, threshold);
      if op.Connected? {
        UnconnectedRuns(init, threshold);
      }
      TakeStep(TakeAll(init, threshold), op, threshold);
    }
  }

  /** The channel is closed and stays closed, with the stop signal wired and nobody having set it:
      every event from now on is dropped and the engine does not end. */
  predicate SilentlyClosed(c: Channel) {
    c.wired && !c.open && !c.stop
  }

  /** At `k` an unset stop signal was wired to a channel that had been closed before, and nothing
      happened since but injections: no other wiring, connecting or stop request. */
  predicate WiredTooLate(run: seq<ChannelOp>, k: int, threshold: int) {
    && 0 <= k < |run| && run[k] == Wired(false) && !TakeAll(run[..k], threshold).open
    && forall j | k < j < |run| :: run[j].Injected?
  }

  lemma WiredTooLateSnoc(init: seq<ChannelOp>, op: ChannelOp, threshold: int)
    ensures (exists k :: WiredTooLate(init + [op], k, threshold))
      <==> (op == Wired(false) && !TakeAll(init, threshold).open)
           || (op.Injected? && exists k :: WiredTooLate(init, k, threshold))
  {
    var run := init + [op];
    assert run[..|init|] == init;
    forall k | 0 <= k < |init|
      ensures WiredTooLate(run, k, threshold) <==> op.Injected? && WiredTooLate(init, k, threshold)
    {
      assert run[..k] == init[..k];
      assert forall j | k < j < |init| :: run[j] == init[j];
      assert run[|init|] == op;
    }
    if exists k :: WiredTooLate(init, k, threshold) {
      var k :| WiredTooLate(init, k, threshold);
      assert WiredTooLate(run, k, threshold) <==> op.Injected?;
    }
    assert WiredTooLate(run, |init|, threshold) <==> op == Wired(false) && !TakeAll(init, threshold).open;
    if exists k :: WiredTooLate(run, k, threshold) {
      var k :| WiredTooLate(run, k, threshold);
      assert k == |init| || WiredTooLate(init, k, threshold);
    }
  }

  /** When a closed channel means the stop was requested, once the signal is wired: always, except
      that the signal came too late for a channel that was closed already. */
  lemma {:induction false} ClosedMeansStopExactly(run: seq<ChannelOp>, threshold: int)
    ensures SilentlyClosed(TakeAll(run, threshold)) <==> exists k :: WiredTooLate(run, k, threshold)
  {
    if run != [] {
      var init, op := run[..|run| - 1], run[|run| - 1];
      assert run == init + [op];
      ClosedMeansStopExactly(init, threshold);
      WiredTooLateSnoc(init, op, threshold);
    }
  }

  // ----- when the channel closes -----

  function Injections(run: seq<ChannelOp>): seq<Injection> {
    if run == [] then []
    else
      var init, last := Injections(run[..|run| - 1]), run[|run| - 1];
      if last.Injected? then init + [last.injection] else init
  }

  /** The last `n` injections fail, every one of them. */
  predicate FailInARow(injections: seq<Injection>, n: nat) {
    n <= |injections| && forall i | |injections| - n <= i < |injections| :: Fails(injections[i])
  }

  /** How many failures in a row it takes: one at least. */
  function Patience(threshold: int): nat {
    if threshold < 1 then 1 else threshold
  }

  lemma {:induction false} FailuresInARow(run: seq<ChannelOp>, threshold: int)
    requires ConnectedOnce(run)
    ensures TakeAll(run, threshold).open ==> FailInARow(Injections(run), TakeAll(run, threshold).fails)
  {
    if run != [] {
      var init, op := run[..|run| - 1], run[|run| - 1];
      FailuresInARow(init, threshold);
      if op.Connected? {
        UnconnectedRuns(init, threshold);
      }
    }
  }

  /** An open channel closes in one way only: an injection fails, as did those before it as often
      as the threshold says, nothing having got through in between, and the reconnect fails too.
      A wired stop is then requested. */
  lemma ClosesOnlyAfter(run: seq<ChannelOp>, op: ChannelOp, threshold: int)
    requires ConnectedOnce(run + [op]) && TakeAll(run, threshold).open && !TakeAll(run + [op], threshold).open
    ensures op.Injected? && !op.injection.reconnects && FailInARow(Injections(run + [op]), Patience(threshold))
    ensures TakeAll(run + [op], threshold).wired ==> TakeAll(run + [op], threshold).stop
  {
    assert (run + [op])[..|run|] == run;
    assert ConnectedOnce(run) by {
      assert forall i | 0 <= i < |run| :: (run + [op])[i] == run[i];
    }
    InjectionRuns(run, threshold);
    FailuresInARow(run, threshold);
  }

  /** And it does: from a channel with no failure behind it, so many failures in a row, and no
      fewer, close it if the last one's reconnect fails, and otherwise leave it as good as new. */
  lemma {:induction false} FailingStretch(run: seq<ChannelOp>, more: seq<ChannelOp>, threshold: int)
    requires TakeAll(run, threshold).open && TakeAll(run, threshold).fails == 0 && |more| <= Patience(threshold)
    requires forall i | 0 <= i < |more| :: more[i].Injected? && Fails(more[i].injection)
    ensures var (before, after) := (TakeAll(run, threshold), TakeAll(run + more, threshold));
      if |more| < Patience(threshold) then after.open && after.fails == |more| && after.stop == before.stop
      else if more[|more| - 1].injection.reconnects
      then after.open && after.fails == 0 && after.stop == before.stop
      else !after.open && after.stop == (before.stop || before.wired)
    ensures TakeAll(run + more, threshold).wired == TakeAll(run, threshold).wired
  {
    if more == [] {
      assert run + more == run;
    } else {
      assert (run + more)[..|run + more| - 1] == run + more[..|more| - 1];
      FailingStretch(run, more[..|more| - 1], threshold);
    }
  }

  /** `n` injections that fail at once and cannot reconnect. */
  function Failing(n: nat, p: Publication): seq<ChannelOp> {
    if n == 0 then [] else Failing(n - 1, p) + [Injected(Injection([p], Some(0), false))]
  }

  lemma {:induction false} FailingCloses(n: nat, p: Publication, threshold: int)
    requires n >= 1
    ensures TakeAll([Connected] + Failing(n, p), threshold)
      == if n < threshold then Channel(true, n, false, false, [])
         else Channel(false, Patience(threshold), false, false, [])
  {
    var run := [Connected] + Failing(n, p);
    assert run[..|run| - 1] == [Connected] + Failing(n - 1, p);
    if n == 1 {
      assert [Connected] + Failing(0, p) == [Connected];
      assert TakeAll([Connected], threshold) == Take(TakeAll([Connected][..0], threshold), Connected, threshold);
      assert [p][..0] == [];
    } else {
      FailingCloses(n - 1, p, threshold);
    }
  }

  /** It does happen: the engine lets events in before it wires the signal, and enough failures in
      that time close the channel for good with nobody told. */
  lemma StopCanBeMissed(p: Publication, threshold: int)
    ensures var n := Patience(threshold);
      SilentlyClosed(TakeAll([Connected] + Failing(n, p) + [Wired(false)], threshold))
  {
    var n := Patience(threshold);
    FailingCloses(n, p, threshold);
    var run := [Connected] + Failing(n, p) + [Wired(false)];
    assert run[..|run| - 1] == [Connected] + Failing(n, p);
  }

  /** And then no injection gets anything out any more, nor ends it. */
  lemma {:induction false} MissedStopIsFinal(run: seq<ChannelOp>, more: seq<ChannelOp>, threshold: int)
    requires SilentlyClosed(TakeAll(run, threshold)) && forall i | 0 <= i < |more| :: more[i].Injected?
    ensures TakeAll(run + more, threshold) == TakeAll(run, threshold)
  {
    if more == [] {
      assert run + more == run;
    } else {
      assert (run + more)[..|run + more| - 1] == run + more[..|more| - 1];
      MissedStopIsFinal(run, more[..|more| - 1], threshold);
    }
  }

  /** While no publish fails, a channel that has been opened stays open and publishes every plan. */
  lemma {:induction false} CleanRuns(run: seq<ChannelOp>, more: seq<ChannelOp>, threshold: int)
    requires TakeAll(run, threshold).open
    requires forall i | 0 <= i < |more| && more[i].Injected? :: !Fails(more[i].injection)
    ensures TakeAll(run + more, threshold).open
    ensures forall i, p | 0 <= i < |more| && more[i].Injected? && p in more[i].injection.plan
      :: p in TakeAll(run + more, threshold).published
  {
    if more == [] {
      assert run + more == run;
    } else {
      var init := more[..|more| - 1];
      assert (run + more)[..|run + more| - 1] == run + init;
      CleanRuns(run, init, threshold);
      assert forall i | 0 <= i < |init| :: init[i] == more[i];
    }
  }

  // ----- relaying local events -----

  /** A firehose message: unreadable, or its two fields. */
  datatype Body = NotJson | Fields(uid: Option<string>, cot: Option<L.Document>)

  datatype Resolution = NoResolver | Unreachable | Resolved(groups: set<string>)

  /** What happens to the relay side: a message from the groups exchange (`uid` is None when its
      body names none), a firehose message up to the cache lookup, what the database then says
      when it is asked, or a sweep. They come from different threads, so a groups message or a
      sweep may fall between a lookup and its answer. `wall` is the duplicate filter's clock. */
  datatype BusOp =
    | GroupsMessage(routingKey: string, uid: Option<string>, at: int)
    | FirehoseMessage(body: Body, fieldsOk: bool, wall: int, at: int)
    | Answered(resolver: Resolution, at: int)
    | Sweep(sampled: int, at: int)

  /** One call of the fan-out. */
  datatype Relay = Relay(uid: string, doc: L.Document, groups: set<string>)

  /** The relay side: the cache, the filter's memory, the lookup that waits for the database (the
      uid, and the event to relay), the calls made; and, for the record, the cache operations so
      far. */
  datatype View = View(
    store: G.Store, dedup: seq<D.Seen>, pending: Option<(string, L.Document)>, relays: seq<Relay>, ops: seq<G.Op>)

  datatype Settings = Settings(serverId: string, window: int, ttl: int)

  function OutGroup(routingKey: string): Option<string> {
    var n := |routingKey|;
    if n > 4 && routingKey[n - 4..] == ".OUT" then Some(routingKey[..n - 4]) else None
  }

  function Cache(v: View, op: G.Op, s: Settings): View {
    v.(store := G.Apply(v.store, op, s.ttl), ops := v.ops + [op])
  }

  /** The event's own fields are there; `fieldsOk`: its dates, point and detail can be read. */
  predicate EventParses(doc: L.Document, fieldsOk: bool) {
    doc.Parsed? && doc.root.tag == "event" && "uid" in doc.root.attrs && "type" in doc.root.attrs && fieldsOk
  }

  predicate Duplicate(v: View, doc: L.Document, wall: int, s: Settings) {
    L.IsDuplicate(v.dedup, doc, wall, s.window)
  }

  function Remember(v: View, doc: L.Document, wall: int, s: Settings): View {
    v.(dedup := L.Remembered(v.dedup, doc, wall, s.window))
  }

  function Relayed(v: View, uid: string, doc: L.Document, groups: set<string>): View {
    v.(relays := v.relays + [Relay(uid, doc, groups)])
  }

  /** A cache hit is relayed at once; a miss is left pending. */
  function LookUp(v: View, uid: string, clean: L.Document, at: int, s: Settings): View {
    var v1 := Cache(v, G.Get(uid, at), s);
    match G.Answer(v.store, uid, at, s.ttl)
    case Some(groups) => Relayed(v1, uid, clean, groups)
    case None => v1.(pending := Some((uid, clean)))
  }

  /** The database's answer settles the pending lookup: a non-empty set is stored and relayed to,
      anything else drops the event. */
  function Settle(v: View, resolver: Resolution, at: int, s: Settings): View {
    match v.pending
    case None => v
    case Some((uid, clean)) =>
      var v1 := v.(pending := None);
      if resolver.Resolved? && resolver.groups != {}
      then Relayed(Cache(v1, G.SetGroups(uid, resolver.groups, at), s), uid, clean, resolver.groups)
      else v1
  }

  function UidOf(body: Body): string
    requires body.Fields?
  {
    if body.uid.Some? then body.uid.value else "?"
  }

  /** One thread takes the firehose's messages, so none is taken while a lookup is pending; where
      one is, such a message changes nothing. */
  function Handle(v: View, op: BusOp, s: Settings): View {
    match op
    case Sweep(sampled, at) => Cache(v, G.Evict(sampled, at), s)
    case GroupsMessage(key, uid, at) =>
      if OutGroup(key).Some? && uid.Some? && uid.value != ""
        then Cache(v, G.Update(uid.value, OutGroup(key).value, at), s) else v
    case FirehoseMessage(body, fieldsOk, wall, at) =>
      if v.pending.Some? || body.NotJson? || body.cot.None? then v
      else
        var doc := body.cot.value;
        var v1 := Remember(v, doc, wall, s);
        if Duplicate(v, doc, wall, s) || L.Loops(doc, s.serverId) || !EventParses(L.Cleaned(doc), fieldsOk) then v1
        else LookUp(v1, UidOf(body), L.Cleaned(doc), at, s)
    case Answered(resolver, at) => Settle(v, resolver, at, s)
  }

  function HandleFrom(v: View, run: seq<BusOp>, s: Settings): View {
    if run == [] then v else Handle(HandleFrom(v, run[..|run| - 1], s), run[|run| - 1], s)
  }

  function HandleAll(trace: seq<BusOp>, s: Settings): View {
    HandleFrom(View(G.EMPTY, [], None, [], []), trace, s)
  }

  // ----- the bus object -----

  class OtsRmqBus {
    const serverId: string
    const threshold: int
    const injectCotParser: bool
    const directory: Directory
    const filter: L.LoopFilter
    const cache: G.EudGroupCache
    var pubOpen: bool
    var pubFailCount: nat
    var stopWired: bool
    var stopSet: bool
    var published: seq<Publication>
    var relays: seq<Relay>
    ghost var ops: seq<G.Op>

    ghost function PubSide(): Channel
      reads this
    {
      Channel(pubOpen, pubFailCount, stopWired, stopSet, published)
    }

    ghost function RelaySide(): View
      reads this, filter, cache
    {
      View(cache.View(), filter.dedup, None, relays, ops)
    }

    ghost function Config(): Settings {
      Settings(serverId, filter.window, cache.ttl)
    }

    ghost predicate Valid()
      reads this, filter, cache
    {
      cache.Valid() && filter.serverId == serverId
    }

    constructor (serverId: string, threshold: int, injectCotParser: bool, directory: Directory, filter: L.LoopFilter,
                 cache: G.EudGroupCache)
      requires cache.Valid() && filter.serverId == serverId
      ensures Valid() && PubSide() == UNOPENED
      ensures RelaySide() == View(cache.View(), filter.dedup, None, [], [])
      ensures this.serverId == serverId && this.threshold == threshold && this.injectCotParser == injectCotParser
      ensures this.directory == directory && this.filter == filter && this.cache == cache
    {
      this.serverId, this.threshold, this.injectCotParser := serverId, threshold, injectCotParser;
      this.directory, this.filter, this.cache := directory, filter, cache;
      pubOpen, pubFailCount, stopWired, stopSet, published, relays, ops := false, 0, false, false, [], [], [];
    }

    /** Connecting opens the publish channel. */
    method Connect()
      modifies this
      ensures PubSide() == Take(old(PubSide()), Connected, threshold) && relays == old(relays) && ops == old(ops)
    {
      pubOpen := true;
    }

    /** Start consuming hands over the engine's stop signal. */
    method WireStop(alreadySet: bool)
      modifies this
      ensures PubSide() == Take(old(PubSide()), Wired(alreadySet), threshold) && relays == old(relays)
        && ops == old(ops)
    {
      stopWired, stopSet := true, alreadySet;
    }

    /** A publish raises exactly when it is the `failAt`-th of this injection. */
    method Publish(p: Publication, ghost failAt: Option<nat>, ghost sent: nat, fails: bool) returns (ok: bool)
      requires fails <==> failAt == Some(sent)
      modifies this`published
      ensures ok == !fails
      ensures published == if ok then old(published) + [p] else old(published)
    {
      if fails {
        return false;
      }
      published := published + [p];
      return true;
    }

    method SendDirect(dests: seq<string>, groups: set<string>, uid: string, cot: L.Document, failAt: Option<nat>)
      returns (sent: nat, ok: bool)
      modifies this`published
      ensures var plan := DirectPlan(dests, directory, groups, uid, cot);
        && (ok <==> !(failAt.Some? && failAt.value < |plan|))
        && sent == (if ok then |plan| else failAt.value)
        && published == old(published) + plan[..sent]
    {
      sent, ok := 0, true;
      ghost var before, plan := published, DirectPlan(dests, directory, groups, uid, cot);
      for i := 0 to |dests|
        invariant ok && sent <= |plan| && published == before + plan[..sent]
        invariant DirectPlan(dests[..i], directory, groups, uid, cot) == plan[..sent]
        invariant failAt.Some? ==> sent <= failAt.value
      {
        DirectPlanStep(dests, i, directory, groups, uid, cot, sent);
        var callsign := dests[i];
        if callsign == "" {
          continue;
        }
        var reachable := DmReachable(callsign, groups);
        if !reachable {
          continue;
        }
        TakeNext(before, plan, sent);
        ok := Publish(Publication(Dms, callsign, uid, cot), failAt, sent, failAt == Some(sent));
        if !ok {
          return;
        }
        sent := sent + 1;
      }
      assert dests[..|dests|] == dests;
    }

    /** No database, or one that cannot be reached, means not reachable. */
    method DmReachable(callsign: string, groups: set<string>) returns (reachable: bool)
      ensures reachable <==> Reachable(directory, callsign, groups)
    {
      if directory.None? {
        return false;
      }
      var found := directory.value(callsign);
      if found.None? {
        return false;
      }
      return found.value * groups != {};
    }

    static lemma TakeNext<T>(before: seq<T>, s: seq<T>, i: nat)
      requires i < |s|
      ensures before + s[..i] + [s[i]] == before + s[..i + 1]
    {}

    method SendToGroups(list: seq<string>, uid: string, cot: L.Document, failAt: Option<nat>)
      returns (sent: nat, ok: bool)
      modifies this`published
      ensures var plan := GroupPlan(list, uid, cot);
        && (ok <==> !(failAt.Some? && failAt.value < |plan|))
        && sent == (if ok then |plan| else failAt.value)
        && published == old(published) + plan[..sent]
    {
      sent, ok := 0, true;
      ghost var before, plan := published, GroupPlan(list, uid, cot);
      for i := 0 to |list|
        invariant ok && sent == i && published == before + plan[..i]
        invariant failAt.Some? ==> sent <= failAt.value
      {
        var p := Publication(GroupTopics, list[i] + ".OUT", uid, cot);
        assert plan[i] == p;
        TakeNext(before, plan, i);
        ok := Publish(p, failAt, sent, failAt == Some(sent));
        if !ok {
          return;
        }
        sent := sent + 1;
      }
    }

    /** The part of a plan that addresses the event's receivers. */
    method SendOut(evt: PeerEvent, groups: set<string>, list: seq<string>, uid: string, cot: L.Document,
                   failAt: Option<nat>)
      returns (sent: nat, ok: bool)
      modifies this`published
      ensures var plan := Receivers(evt, groups, list, directory, uid, cot);
        && (ok <==> !(failAt.Some? && failAt.value < |plan|))
        && sent == (if ok then |plan| else failAt.value)
        && published == old(published) + plan[..sent]
    {
      if Addressees(evt) != [] {
        sent, ok := SendDirect(Addressees(evt), groups, uid, cot, failAt);
      } else {
        sent, ok := SendToGroups(list, uid, cot, failAt);
      }
    }

    method PublishPlan(evt: PeerEvent, groups: set<string>, list: seq<string>, cot: L.Document, failAt: Option<nat>)
      returns (ok: bool)
      requires cot == BodyOf(evt, serverId)
      modifies this`published
      ensures var plan := Plan(evt, groups, list, directory, injectCotParser, serverId);
        && (ok <==> !(failAt.Some? && failAt.value < |plan|))
        && published == old(published) + if ok then plan else plan[..failAt.value]
    {
      var uid := Uid(evt);
      var parser := Publication(CotParser, "cot_parser", uid, cot);
      ghost var before := published;
      if groups == {} {
        ok := Publish(parser, failAt, 0, failAt == Some(0));
        return;
      }
      ghost var part := Receivers(evt, groups, list, directory, uid, cot);
      var sent: nat;
      sent, ok := SendOut(evt, groups, list, uid, cot, failAt);
      ghost var sentOut, mid := ok, published;
      if ok && injectCotParser {
        ok := Publish(parser, failAt, sent, failAt == Some(sent));
      }
      CutInTwo(before, part, if injectCotParser then [parser] else [], failAt, sentOut, mid, ok, published);
    }

    /** A plan in two parts, the second of at most one publication. */
    static lemma CutInTwo<T>(before: seq<T>, part: seq<T>, tail: seq<T>, failAt: Option<nat>, sentOut: bool,
                             mid: seq<T>, ok: bool, after: seq<T>)
      requires |tail| <= 1 && (sentOut <==> !(failAt.Some? && failAt.value < |part|))
      requires mid == before + part[..if sentOut then |part| else failAt.value]
      requires ok <==> sentOut && !(tail != [] && failAt == Some(|part|))
      requires after == if ok then mid + tail else mid
      ensures ok <==> !(failAt.Some? && failAt.value < |part + tail|)
      ensures after == before + if ok then part + tail else (part + tail)[..failAt.value]
    {
      if ok {
        assert part[..|part|] == part;
        assert before + part + tail == before + (part + tail);
      } else {
        var n := failAt.value;
        assert (part + tail)[..n] == part[..n];
      }
    }

    /** Deliver a peer's event: publish its plan up to the failing publication, if any, and
        after too many failures in a row reconnect or give up. */
    method InjectEvent(evt: PeerEvent, groups: set<string>, list: seq<string>, failAt: Option<nat>, reconnects: bool)
      requires Valid() && Enumerates(list, groups)
      modifies this
      ensures var plan := Plan(evt, groups, list, directory, injectCotParser, serverId);
        PubSide() == Take(old(PubSide()), Injected(Injection(plan, failAt, reconnects)), threshold)
      ensures relays == old(relays) && ops == old(ops)
    {
      var cot := ToXml(evt);
      if evt.meta.Some? {
        cot := filter.StampInbound(cot, evt.meta.value);
      }
      if !pubOpen {
        return;
      }
      var ok := PublishPlan(evt, groups, list, cot, failAt);
      if ok {
        pubFailCount := 0;
      } else {
        pubFailCount := pubFailCount + 1;
        if pubFailCount >= threshold {
          pubOpen := reconnects;
          if reconnects {
            pubFailCount := 0;
          } else if stopWired {
            stopSet := true;
          }
        }
      }
    }

    method OnGroupsMessage(routingKey: string, uid: Option<string>, now: int)
      requires Valid()
      modifies this, cache
      ensures Valid() && PubSide() == old(PubSide())
      ensures RelaySide() == Handle(old(RelaySide()), GroupsMessage(routingKey, uid, now), Config())
    {
      var n := |routingKey|;
      if n < 4 || routingKey[n - 4..] != ".OUT" {
        return;
      }
      var group := routingKey[..n - 4];
      if group == "" {
        return;
      }
      if uid.Some? && uid.value != "" {
        cache.UpdateGroup(uid.value, group, now);
        ops := ops + [G.Update(uid.value, group, now)];
      }
    }

    /** Both halves of a message, with nothing in between. */
    method OnFirehoseMessage(body: Body, fieldsOk: bool, resolver: Resolution, wall: int, now: int, later: int)
      requires Valid()
      modifies this, filter, cache
      ensures Valid() && PubSide() == old(PubSide())
      ensures RelaySide()
        == Handle(Handle(old(RelaySide()), FirehoseMessage(body, fieldsOk, wall, now), Config()),
                  Answered(resolver, later), Config())
    {
      if body.NotJson? || body.cot.None? {
        return;
      }
      var doc := body.cot.value;
      var uid := if body.uid.Some? then body.uid.value else "?";
      var relay := filter.ShouldRelayOutbound(doc, wall);
      if !relay {
        return;
      }
      var clean := filter.CleanForRelay(doc);
      if !EventParses(clean, fieldsOk) {
        return;
      }
      RelayToGroups(uid, clean, resolver, now, later);
    }

    /** Relay to the groups the cache knows, else to those the database names, else not at all. */
    method RelayToGroups(uid: string, clean: L.Document, resolver: Resolution, now: int, later: int)
      requires Valid()
      modifies this`ops, this`relays, cache
      ensures Valid() && PubSide() == old(PubSide())
      ensures RelaySide() == Settle(LookUp(old(RelaySide()), uid, clean, now, Config()), resolver, later, Config())
    {
      var groups := cache.GetGroups(uid, now);
      ops := ops + [G.Get(uid, now)];
      if groups.None? && !resolver.NoResolver? {
        if resolver.Unreachable? {
          return;
        }
        if resolver.groups == {} {
          return;
        }
        cache.ReplaceGroups(uid, resolver.groups, later);
        ops := ops + [G.SetGroups(uid, resolver.groups, later)];
        groups := Some(resolver.groups);
      }
      if groups.None? {
        return;
      }
      relays := relays + [Relay(uid, clean, groups.value)];
    }
  }

  lemma DirectPlanStep(dests: seq<string>, i: nat, dir: Directory, groups: set<string>, uid: string, cot: L.Document,
                       sent: nat)
    requires i < |dests| && sent <= |DirectPlan(dests, dir, groups, uid, cot)|
    requires DirectPlan(dests[..i], dir, groups, uid, cot) == DirectPlan(dests, dir, groups, uid, cot)[..sent]
    ensures var plan := DirectPlan(dests, dir, groups, uid, cot);
      var next := DirectPlan(dests[..i + 1], dir, groups, uid, cot);
      if Deliverable(dir, dests[i], groups)
      then sent < |plan| && plan[sent] == Publication(Dms, dests[i], uid, cot) && next == plan[..sent + 1]
      else next == plan[..sent]
  {
    assert dests[..i + 1][..i] == dests[..i];
    DirectPlanPrefix(dests, i + 1, dir, groups, uid, cot);
  }

  lemma {:induction false} DirectPlanPrefix(dests: seq<string>, i: nat, dir: Directory, groups: set<string>,
                                            uid: string, cot: L.Document)
    requires i <= |dests|
    ensures DirectPlan(dests[..i], dir, groups, uid, cot) <= DirectPlan(dests, dir, groups, uid, cot)
    decreases |dests|
  {
    if i == |dests| {
      assert dests[..i] == dests;
    } else {
      assert dests[..|dests| - 1][..i] == dests[..i];
      DirectPlanPrefix(dests[..|dests| - 1], i, dir, groups, uid, cot);
    }
  }

  // ----- what is relayed -----

  /** A firehose message's event: one that is no duplicate, carries no stamp of ours, and, its
      stamps removed, is an event with a uid and a type. */
  predicate Passes(v: View, doc: L.Document, fieldsOk: bool, wall: int, s: Settings) {
    && !L.IsDuplicate(v.dedup, doc, wall, s.window) && !L.Loops(doc, s.serverId)
    && L.Cleaned(doc).Parsed? && fieldsOk
    && var root := L.Cleaned(doc).root; root.tag == "event" && "uid" in root.attrs && "type" in root.attrs
  }

  /** The cache has an entry for the uid, and it is not older than its lifetime. */
  predicate Known(v: View, uid: string, now: int, s: Settings) {
    uid in v.store.groups && (uid in v.store.lastSeen ==> now - v.store.lastSeen[uid] <= s.ttl)
  }

  /** Exactly what each operation relays. An event that passes goes, without its stamps, to the
      groups the cache has for its uid; if it has none the event waits, and goes to the groups
      the database then answers with, if any. Nothing else is relayed. */
  lemma RelayedExactly(v: View, op: BusOp, s: Settings)
    ensures var v' := Handle(v, op, s);
      match op
      case FirehoseMessage(Fields(named, Some(doc)), fieldsOk, wall, at) =>
        var uid := if named.Some? then named.value else "?";
        if v.pending.Some? then v' == v
        else if !Passes(v, doc, fieldsOk, wall, s) then v'.relays == v.relays && v'.pending.None?
        else if Known(v, uid, at, s)
        then v'.relays == v.relays + [Relay(uid, L.Cleaned(doc), v.store.groups[uid])] && v'.pending.None?
        else v'.relays == v.relays && v'.pending == Some((uid, L.Cleaned(doc)))
      case Answered(resolver, _) =>
        && v'.pending.None?
        && v'.relays == v.relays
           + if v.pending.Some? && resolver.Resolved? && resolver.groups != {}
             then [Relay(v.pending.value.0, v.pending.value.1, resolver.groups)] else []
      case _ => v'.relays == v.relays && v'.pending == v.pending
  {}

  /** A message announces a group exactly when it names a uid under a key that is the group and
      `.OUT`; the group is then added for the uid, and any other message changes nothing. */
  lemma MessagesExactly(v: View, key: string, named: Option<string>, at: int, s: Settings)
    ensures var v' := Handle(v, GroupsMessage(key, named, at), s);
      && v' == v.(store := v'.store, ops := v'.ops)
      && (forall g | g != "" && key == g + ".OUT" && named.Some? && named.value != "" ::
            v'.ops == v.ops + [G.Update(named.value, g, at)])
      && ((named.None? || named.value == "" || forall g | key == g + ".OUT" :: g == "") ==> v' == v)
  {
    forall g ensures key == g + ".OUT" ==> |g| == |key| - 4 && key[|key| - 4..] == ".OUT" && key[..|key| - 4] == g {}
    if OutGroup(key).Some? {
      assert key == OutGroup(key).value + ".OUT";
    }
  }

  /** And what each other operation does to the duplicate memory and the cache: an event looked at
      is remembered as the filter does, and the cache is asked for the uid of one that passes and
      takes in the groups the database answers with. */
  lemma RememberedExactly(v: View, op: BusOp, s: Settings)
    ensures var v' := Handle(v, op, s);
      match op
      case FirehoseMessage(Fields(named, Some(doc)), fieldsOk, wall, at) =>
        v.pending.None? ==>
          && v'.dedup == L.Remembered(v.dedup, doc, wall, s.window)
          && v'.ops == v.ops + if Passes(v, doc, fieldsOk, wall, s)
                               then [G.Get(if named.Some? then named.value else "?", at)] else []
      case Answered(resolver, at) =>
        && v'.dedup == v.dedup
        && v'.ops == v.ops
           + if v.pending.Some? && resolver.Resolved? && resolver.groups != {}
             then [G.SetGroups(v.pending.value.0, resolver.groups, at)] else []
      case GroupsMessage(_, _, _) => v'.dedup == v.dedup
      case Sweep(sampled, at) => v'.dedup == v.dedup && v'.ops == v.ops + [G.Evict(sampled, at)]
      case _ => v' == v
  {}

  // ----- announced groups -----

  /** The database's first answer in a run. */
  function FirstAnswer(run: seq<BusOp>): Option<Resolution> {
    if run == [] then None
    else
      var before, last := FirstAnswer(run[..|run| - 1]), run[|run| - 1];
      if before.None? && last.Answered? then Some(last.resolver) else before
  }

  /** A lookup of the uid was under way, and the answer to it comes without the group. */
  predicate Overridden(pending: Option<(string, L.Document)>, run: seq<BusOp>, uid: string, g: string) {
    && pending.Some? && pending.value.0 == uid
    && match FirstAnswer(run)
       case Some(Resolved(groups)) => groups != {} && g !in groups
       case _ => false
  }

  /** The operations happen in order between two moments, and sweeps sample no later one. */
  predicate Between(run: seq<BusOp>, from: int, to: int) {
    && (forall i | 0 <= i < |run| :: from <= run[i].at <= to && (run[i].Sweep? ==> run[i].sampled <= to))
    && (forall i, j | 0 <= i < j < |run| :: run[i].at <= run[j].at)
  }

  predicate Announces(op: BusOp, uid: string, g: string) {
    op.GroupsMessage? && op.routingKey == g + ".OUT" && op.uid == Some(uid)
  }

  predicate Announced(v: View, pending: Option<(string, L.Document)>, run: seq<BusOp>, uid: string, g: string,
                      from: int) {
    && uid in v.store.groups && uid in v.store.lastSeen && v.store.lastSeen[uid] >= from
    && (g in v.store.groups[uid] <==> !Overridden(pending, run, uid, g))
    && if FirstAnswer(run).None? && pending.Some? then v.pending == pending
       else v.pending.None? || v.pending.value.0 != uid
  }

  lemma AnnouncedStep(v: View, pending: Option<(string, L.Document)>, run: seq<BusOp>, op: BusOp, uid: string,
                      g: string, from: int, to: int, s: Settings)
    requires Announced(v, pending, run, uid, g, from) && !Announces(op, uid, g)
    requires from <= op.at <= to && (op.Sweep? ==> op.sampled <= to) && to - from <= s.ttl
    ensures Announced(Handle(v, op, s), pending, run + [op], uid, g, from)
  {
    assert (run + [op])[..|run|] == run;
    match op
    case GroupsMessage(_, _, _) => AnnouncedMessage(v, op, uid, g, s);
    case FirehoseMessage(_, _, _, _) => AnnouncedFirehose(v, op, uid, s);
    case _ =>
  }

  lemma AnnouncedMessage(v: View, op: BusOp, uid: string, g: string, s: Settings)
    requires op.GroupsMessage? && !Announces(op, uid, g) && uid in v.store.groups && uid in v.store.lastSeen
    ensures var v' := Handle(v, op, s);
      && v'.pending == v.pending && uid in v'.store.groups && uid in v'.store.lastSeen
      && v'.store.lastSeen[uid] in {v.store.lastSeen[uid], op.at}
      && (g in v'.store.groups[uid] <==> g in v.store.groups[uid])
  {
    if OutGroup(op.routingKey).Some? {
      assert op.routingKey == OutGroup(op.routingKey).value + ".OUT";
    }
  }

  lemma AnnouncedFirehose(v: View, op: BusOp, uid: string, s: Settings)
    requires op.FirehoseMessage? && uid in v.store.groups && uid in v.store.lastSeen
    requires op.at - v.store.lastSeen[uid] <= s.ttl
    ensures var v' := Handle(v, op, s);
      && uid in v'.store.groups && v'.store.groups[uid] == v.store.groups[uid]
      && uid in v'.store.lastSeen && v'.store.lastSeen[uid] == v.store.lastSeen[uid]
      && (v.pending.Some? ==> v'.pending == v.pending)
      && (v.pending.None? && v'.pending.Some? ==> v'.pending.value.0 != uid)
  {}

  lemma {:induction false} AnnouncedRun(v: View, run: seq<BusOp>, uid: string, g: string, from: int, to: int,
                                        s: Settings)
    requires Announced(v, v.pending, [], uid, g, from)
    requires Between(run, from, to) && to - from <= s.ttl
    requires forall i | 0 <= i < |run| :: !Announces(run[i], uid, g)
    ensures Announced(HandleFrom(v, run, s), v.pending, run, uid, g, from)
  {
    if run != [] {
      var init, op := run[..|run| - 1], run[|run| - 1];
      assert run == init + [op] && Between(init, from, to);
      AnnouncedRun(v, init, uid, g, from, to, s);
      AnnouncedStep(HandleFrom(v, init, s), v.pending, init, op, uid, g, from, to, s);
    }
  }

  /** A group announced for a uid counts from then on: whatever happens meanwhile, an event of
      that uid that passes within the lifetime is relayed at once, and to that group among others
      - except exactly when a lookup of the uid was under way at the announcement and the
      database's answer to it, coming later, does not have the group. */
  lemma AnnouncedGroup(v: View, uid: string, g: string, at: int, run: seq<BusOp>, doc: L.Document, fieldsOk: bool,
                       wall: int, now: int, s: Settings)
    requires uid != "" && g != "" && Between(run, at, now) && 0 <= now - at <= s.ttl
    requires forall i | 0 <= i < |run| :: !Announces(run[i], uid, g)
    requires var then' := HandleFrom(Handle(v, GroupsMessage(g + ".OUT", Some(uid), at), s), run, s);
      then'.pending.None? && Passes(then', doc, fieldsOk, wall, s)
    ensures var then' := HandleFrom(Handle(v, GroupsMessage(g + ".OUT", Some(uid), at), s), run, s);
      var after := Handle(then', FirehoseMessage(Fields(Some(uid), Some(doc)), fieldsOk, wall, now), s);
      exists groups ::
        && after.relays == then'.relays + [Relay(uid, L.Cleaned(doc), groups)]
        && (g in groups <==> !Overridden(v.pending, run, uid, g))
  {
    var key := g + ".OUT";
    assert key[|key| - 4..] == ".OUT" && key[..|key| - 4] == g;
    var v1 := Handle(v, GroupsMessage(key, Some(uid), at), s);
    assert v1 == Cache(v, G.Update(uid, g, at), s);
    AnnouncedRun(v1, run, uid, g, at, now, s);
    var v2 := HandleFrom(v1, run, s);
    RelayedExactly(v2, FirehoseMessage(Fields(Some(uid), Some(doc)), fieldsOk, wall, now), s);
  }

  const RACE_EVENT := L.Parsed(Elem("event", map["uid" := "u", "type" := "t"], []))

  /** An event whose groups the cache does not know, a group announced while the database is
      being asked, and the database's answer. */
  function Race(): seq<BusOp> {
    [FirehoseMessage(Fields(Some("u"), Some(RACE_EVENT)), true, 0, 0),
     GroupsMessage("Red.OUT", Some("u"), 0),
     Answered(Resolved({"Blue"}), 0)]
  }

  /** It does happen: the announced group is gone when the answer comes. */
  lemma AnnouncementCanBeLost(s: Settings)
    requires s.window == 0 && s.ttl >= 0
    ensures HandleAll(Race(), s).relays == [Relay("u", RACE_EVENT, {"Blue"})]
    ensures G.Answer(HandleAll(Race(), s).store, "u", 0, s.ttl) == Some({"Blue"})
  {
    var run := Race();
    assert run[..2] == [run[0], run[1]] && run[..2][..1] == [run[0]] && [run[0]][..0] == [];
    var v0 := HandleAll([], s);
    assert !L.HasDetail(RACE_EVENT.root) && L.Cleaned(RACE_EVENT) == RACE_EVENT;
    RelayedExactly(v0, run[0], s);
    var v1 := Handle(v0, run[0], s);
    assert v1.pending == Some(("u", RACE_EVENT)) && v1.relays == [];
    assert HandleAll([run[0]], s) == v1;
    var v2 := Handle(v1, run[1], s);
    RelayedExactly(v1, run[1], s);
    assert HandleAll(run[..2], s) == v2;
    RelayedExactly(v2, run[2], s);
    assert HandleAll(run, s) == Handle(v2, run[2], s);
  }

  // ----- fail closed, over whole runs -----

  /** Operation `k` of the run is evidence that `uid` is in group `g`: it came as `<g>.OUT` for that
      uid, or the cache did not know the uid, the database was asked about it, and said so. */
  predicate Evidence(trace: seq<BusOp>, s: Settings, k: nat, uid: string, g: string)
    requires k < |trace|
  {
    match trace[k]
    case GroupsMessage(routingKey, named, _) => routingKey == g + ".OUT" && named == Some(uid)
    case Answered(resolver, _) =>
      var asked := HandleAll(trace[..k], s).pending;
      asked.Some? && asked.value.0 == uid && resolver.Resolved? && g in resolver.groups
    case _ => false
  }

  ghost predicate HasEvidence(trace: seq<BusOp>, s: Settings, uid: string, g: string) {
    exists k | 0 <= k < |trace| :: Evidence(trace, s, k, uid, g)
  }

  ghost predicate SetBacked(groups: set<string>, trace: seq<BusOp>, s: Settings, uid: string) {
    groups != {} && forall g | g in groups :: HasEvidence(trace, s, uid, g)
  }

  lemma EvidenceLonger(trace: seq<BusOp>, last: BusOp, s: Settings, uid: string, g: string)
    requires HasEvidence(trace, s, uid, g)
    ensures HasEvidence(trace + [last], s, uid, g)
  {
    var k :| 0 <= k < |trace| && Evidence(trace, s, k, uid, g);
    assert (trace + [last])[..k] == trace[..k];
    assert Evidence(trace + [last], s, k, uid, g);
  }

  /** Every group the cache operations grant is backed by the trace; none of them grants the
      empty set. */
  ghost predicate Backed(ops: seq<G.Op>, trace: seq<BusOp>, s: Settings) {
    forall i | 0 <= i < |ops| :: OpBacked(ops[i], trace, s)
  }

  ghost predicate OpBacked(op: G.Op, trace: seq<BusOp>, s: Settings) {
    match op
    case Update(uid, g, _) => HasEvidence(trace, s, uid, g)
    case SetGroups(uid, all, _) => SetBacked(all, trace, s, uid)
    case _ => true
  }

  lemma BackedLonger(ops: seq<G.Op>, trace: seq<BusOp>, last: BusOp, s: Settings)
    requires Backed(ops, trace, s)
    ensures Backed(ops, trace + [last], s)
  {
    forall i | 0 <= i < |ops| ensures OpBacked(ops[i], trace + [last], s) {
      assert OpBacked(ops[i], trace, s);
      match ops[i]
      case Update(uid, g, _) => EvidenceLonger(trace, last, s, uid, g);
      case SetGroups(uid, all, _) =>
        forall g | g in all ensures HasEvidence(trace + [last], s, uid, g) {
          EvidenceLonger(trace, last, s, uid, g);
        }
      case _ =>
    }
  }

  /** The cache is what its recorded operations make it; they are backed by the trace; and what is
      pending has no stamp. */
  ghost predicate Kept(v: View, trace: seq<BusOp>, s: Settings) {
    && v.store == G.Replay(v.ops, s.ttl) && Backed(v.ops, trace, s)
    && (v.pending.Some? ==> Unstamped(v.pending.value.1))
  }

  ghost predicate Unstamped(doc: L.Document) {
    forall id :: !L.Loops(doc, id)
  }

  lemma CacheRecords(v: View, op: G.Op, trace: seq<BusOp>, s: Settings)
    requires Kept(v, trace, s) && OpBacked(op, trace, s)
    ensures Kept(Cache(v, op, s), trace, s)
  {
    var v' := Cache(v, op, s);
    assert v'.ops[..|v'.ops| - 1] == v.ops;
  }

  /** A lookup made on a recorded cache answers with a non-empty, backed set, or not at all. */
  lemma {:induction false} AnswersBacked(ops: seq<G.Op>, trace: seq<BusOp>, s: Settings, uid: string)
    requires Backed(ops, trace, s)
    ensures uid in G.Replay(ops, s.ttl).groups ==> SetBacked(G.Replay(ops, s.ttl).groups[uid], trace, s, uid)
  {
    if ops != [] {
      var init, op := ops[..|ops| - 1], ops[|ops| - 1];
      assert forall i | 0 <= i < |init| :: init[i] == ops[i];
      AnswersBacked(init, trace, s, uid);
      assert OpBacked(op, trace, s);
    }
  }

  /** Nothing more relayed, or one more event, without a stamp and with backed groups. */
  ghost predicate RelayBacked(before: seq<Relay>, after: seq<Relay>, trace: seq<BusOp>, s: Settings) {
    || after == before
    || (exists r :: after == before + [r] && SetBacked(r.groups, trace, s, r.uid) && Unstamped(r.doc))
  }

  lemma CleanForAll(doc: L.Document)
    ensures Unstamped(L.Cleaned(doc))
  {
    forall id ensures !L.Loops(L.Cleaned(doc), id) {
      L.CleanedIsClean(doc, id);
    }
  }

  lemma LookUpBacked(v: View, uid: string, clean: L.Document, trace: seq<BusOp>, s: Settings, at: int)
    requires Kept(v, trace, s) && Unstamped(clean)
    ensures var v' := LookUp(v, uid, clean, at, s); Kept(v', trace, s) && RelayBacked(v.relays, v'.relays, trace, s)
  {
    AnswersBacked(v.ops, trace, s, uid);
    CacheRecords(v, G.Get(uid, at), trace, s);
    if G.Answer(v.store, uid, at, s.ttl).Some? {
      var r := Relay(uid, clean, G.Answer(v.store, uid, at, s.ttl).value);
      assert LookUp(v, uid, clean, at, s).relays == v.relays + [r];
    }
  }

  lemma FirehoseBacked(v: View, trace: seq<BusOp>, op: BusOp, s: Settings)
    requires op.FirehoseMessage? && Kept(v, trace, s)
    ensures var v' := Handle(v, op, s); Kept(v', trace, s) && RelayBacked(v.relays, v'.relays, trace, s)
  {
    if v.pending.None? && op.body.Fields? && op.body.cot.Some? {
      var doc := op.body.cot.value;
      var v1 := Remember(v, doc, op.wall, s);
      if Handle(v, op, s) != v1 {
        CleanForAll(doc);
        LookUpBacked(v1, UidOf(op.body), L.Cleaned(doc), trace, s, op.at);
      }
    }
  }

  lemma AnsweredBacked(init: seq<BusOp>, op: BusOp, s: Settings)
    requires op.Answered? && Kept(HandleAll(init, s), init + [op], s)
    ensures var (v, v') := (HandleAll(init, s), Handle(HandleAll(init, s), op, s));
      Kept(v', init + [op], s) && RelayBacked(v.relays, v'.relays, init + [op], s)
  {
    var v, trace := HandleAll(init, s), init + [op];
    if v.pending.Some? && op.resolver.Resolved? && op.resolver.groups != {} {
      var (uid, clean) := v.pending.value;
      assert trace[..|init|] == init;
      forall g | g in op.resolver.groups ensures HasEvidence(trace, s, uid, g) {
        assert Evidence(trace, s, |init|, uid, g);
      }
      CacheRecords(v.(pending := None), G.SetGroups(uid, op.resolver.groups, op.at), trace, s);
      assert Handle(v, op, s).relays == v.relays + [Relay(uid, clean, op.resolver.groups)];
    }
  }

  lemma GroupsBacked(init: seq<BusOp>, op: BusOp, s: Settings)
    requires op.GroupsMessage? && Kept(HandleAll(init, s), init + [op], s)
    ensures var v' := Handle(HandleAll(init, s), op, s);
      Kept(v', init + [op], s) && v'.relays == HandleAll(init, s).relays
  {
    if OutGroup(op.routingKey).Some? && op.uid.Some? && op.uid.value != "" {
      var g := OutGroup(op.routingKey).value;
      assert op.routingKey == g + ".OUT";
      assert Evidence(init + [op], s, |init|, op.uid.value, g);
      CacheRecords(HandleAll(init, s), G.Update(op.uid.value, g, op.at), init + [op], s);
    }
  }

  lemma HandleKeeps(init: seq<BusOp>, op: BusOp, s: Settings)
    requires Kept(HandleAll(init, s), init + [op], s)
    ensures var v' := Handle(HandleAll(init, s), op, s);
      Kept(v', init + [op], s) && RelayBacked(HandleAll(init, s).relays, v'.relays, init + [op], s)
  {
    match op
    case Sweep(sampled, at) => CacheRecords(HandleAll(init, s), G.Evict(sampled, at), init + [op], s);
    case GroupsMessage(_, _, _) => GroupsBacked(init, op, s);
    case FirehoseMessage(_, _, _, _) => FirehoseBacked(HandleAll(init, s), init + [op], op, s);
    case Answered(_, _) => AnsweredBacked(init, op, s);
  }

  lemma {:induction false} RunKept(trace: seq<BusOp>, s: Settings)
    ensures Kept(HandleAll(trace, s), trace, s)
  {
    if trace != [] {
      var init, op := trace[..|trace| - 1], trace[|trace| - 1];
      assert trace == init + [op];
      RunKept(init, s);
      KeptLonger(HandleAll(init, s), init, op, s);
      HandleKeeps(init, op, s);
    }
  }

  lemma KeptLonger(v: View, init: seq<BusOp>, op: BusOp, s: Settings)
    requires Kept(v, init, s)
    ensures Kept(v, init + [op], s)
  {
    BackedLonger(v.ops, init, op, s);
  }

  /** Fail closed: in every run, whenever an operation makes the bus relay an event to the peers,
      the event carries no provenance stamp and at least one group, and each of its groups is
      backed by an operation up to that moment: a groups message for that uid, or the
      database's answer to a lookup the cache could not serve. */
  lemma FailClosed(trace: seq<BusOp>, s: Settings, k: nat)
    requires k < |trace|
    ensures RelayBacked(HandleAll(trace[..k], s).relays, HandleAll(trace[..k + 1], s).relays, trace[..k + 1], s)
  {
    var init, op := trace[..k], trace[k];
    assert trace[..k + 1] == init + [op] && (init + [op])[..k] == init;
    RunKept(init, s);
    KeptLonger(HandleAll(init, s), init, op, s);
    HandleKeeps(init, op, s);
  }

  /** Echo closure: a peer's event that this server injected, if it comes back with its detail
      children intact, is never relayed nor looked up, whatever the filter, the cache and the
      database say; nor is it by any server of its chain whose id can be listed. */
  lemma EchoesAreNotRelayed(v: View, evt: PeerEvent, injector: string, op: BusOp, s: Settings)
    requires evt.meta.Some? && op.FirehoseMessage? && op.body.Fields? && op.body.cot.Some?
    requires L.SameDetail(op.body.cot.value, BodyOf(evt, injector))
    requires s.serverId == injector || (s.serverId in evt.meta.value.chain && L.Listable(s.serverId))
    ensures var v' := Handle(v, op, s); v' == v.(dedup := v'.dedup)
  {
    L.StampIsRecognised(ToXml(evt), op.body.cot.value, injector, evt.meta.value, s.serverId);
  }
}
