/** The outbound side of a peering: the link object, and the life of its session thread while
    another thread may ask it to stop at any moment. */
module Client {
  import opened Wrappers
  import opened Groups
  import opened Codec
  import opened Bridge
  import opened Intake

  datatype PeerState = DISABLED | CONNECTING | HANDSHAKING | ACTIVE | RECONNECTING | DRAINING

  class FederateClient {
    const nodeId: string
    const maxHops: int
    const localMaxHops: int
    const registry: FederateGroupRegistry?
    const allowFederatedDelete: bool
    const bridge: FederationBridge<(object, Event)>
    var state: PeerState
    var remoteServerId: Option<string>
    var stop: bool
    var outboundQ: seq<Wire>

    constructor (nodeId: string, maxHops: int, localMaxHops: int, registry: FederateGroupRegistry?,
                 allowFederatedDelete: bool, bridge: FederationBridge<(object, Event)>)
      ensures this.nodeId == nodeId && this.maxHops == maxHops && this.localMaxHops == localMaxHops
      ensures this.registry == registry && this.allowFederatedDelete == allowFederatedDelete && this.bridge == bridge
      ensures state == DISABLED && remoteServerId.None? && !stop && outboundQ == []
    {
      this.nodeId, this.maxHops, this.localMaxHops := nodeId, maxHops, localMaxHops;
      this.registry, this.allowFederatedDelete, this.bridge := registry, allowFederatedDelete, bridge;
      state, remoteServerId, stop, outboundQ := DISABLED, None, false, [];
    }

    /** The policy key is the id the session is bound to, "" while there is none. */
    method SendEvent(evt: Event)
      modifies this`outboundQ
      ensures state != ACTIVE ==> outboundQ == old(outboundQ)
      ensures state == ACTIVE ==>
        Appends(old(outboundQ), outboundQ, evt, nodeId, maxHops,
                if registry == null then None else Some(registry.View()),
                if remoteServerId.Some? then remoteServerId.value else "")
    {
      if state != ACTIVE {
        return;
      }
      var key := if remoteServerId.Some? then remoteServerId.value else "";
      var w := PrepareOutboundEvent(evt, nodeId, maxHops, registry, key);
      if w.Some? {
        outboundQ := outboundQ + [w.value];
      }
    }

    /** Group policy applies when there is a registry and the session is bound to a key. */
    method HandleInbound(w: Wire)
      requires bridge.Valid()
      modifies bridge
      ensures bridge.Valid()
      ensures var governed := registry != null && remoteServerId.Some? && remoteServerId.value != "";
        var standing := if governed then Governed(registry.View(), remoteServerId.value) else Ungoverned;
        match Accepted(w, localMaxHops, allowFederatedDelete, standing)
        case None => bridge.queue == old(bridge.queue)
        case Some(evt) => bridge.queue == old(bridge.queue) + [(this, evt)]
    {
      var geo := DecodeFederatedEvent(w);
      if geo.None? {
        return;
      }
      if !allowFederatedDelete && IsDelete(geo.value.etype) {
        return;
      }
      var locals := {};
      if registry != null && remoteServerId.Some? && remoteServerId.value != "" {
        var mapped := registry.MapInboundGroups(remoteServerId.value, w.groups);
        if mapped.None? {
          return;
        }
        locals := mapped.value;
      }
      bridge.Enqueue((this, Event(geo.value, Some(DecodeMeta(w, localMaxHops)), locals)));
    }

    method RequestStop()
      modifies this`stop, this`state
      ensures stop && state == DRAINING
    {
      stop := true;
      state := DRAINING;
    }
  }

  // ----- the session thread, step by step -----

  const BASE := 30
  const CAP := 300

  /** Where the session thread is. A check and the write that follows it are steps of their own:
      the other thread may come in between. */
  datatype Place =
    | LoopHead      // about to check for a stop
    | Starting      // no stop seen, CONNECTING not yet set
    | Dialed        // CONNECTING set
    | Connected     // HANDSHAKING set; with a registry, about to check for a stop before waiting
    | Polling       // no stop seen, waiting a moment for the channel
    | Ready         // the channel is ready, the certificate not yet looked at
    | Bound         // policy identity bound, waiting for the peer to report its id
    | Identified    // the peer has reported its id
    | Opened        // streams open, before the certificate is looked at again
    | Rechecked     // before ACTIVE is set
    | Serving       // waiting for the peer's next event
    | Returned      // the session ended by itself
    | Raised        // the session ended with an error
    | Ending        // no stop seen after the session, RECONNECTING not yet set
    | Resetting     // RECONNECTING set, before the identity is cleared
    | Pausing       // before the pause
    | Exited

  /** `fingerprints` is the configured table; None means there is no group registry at all. */
  datatype Setup = Setup(fingerprints: Option<map<string, string>>, expectedId: string)

  datatype Session = Session(
    place: Place,
    state: PeerState,
    stop: bool,
    remoteId: Option<string>,
    reported: Option<string>,
    verified: Option<string>,
    atResolve: set<string>,
    atRecheck: set<string>,
    delay: int,
    delays: seq<int>)

  function Fresh(): Session {
    Session(LoopHead, DISABLED, false, None, None, None, {}, {}, BASE, [])
  }

  /** One atomic step of the session thread, or of the thread that requests a stop. What the
      outside answers is part of the step: certificates observed, the id reported, events and
      the end of their stream, failures. */
  datatype Step =
    | CheckStop
    | Dial
    | Connect
    | CheckReady
    | PollAgain
    | PollReady
    | Resolve(observed: set<string>)
    | Identify(reported: string)
    | OpenStreams
    | Recheck(observed: set<string>)
    | Activate
    | Receive
    | EndOfStream
    | Raise
    | CheckEnd
    | Reset
    | Clear
    | Pause
    | SetStop
    | SetDraining

  predicate Enabled(s: Session, a: Step) {
    match a
    case CheckStop => s.place.LoopHead?
    case Dial => s.place.Starting?
    case Connect => s.place.Dialed?
    case CheckReady => s.place.Connected?
    case PollAgain => s.place.Polling?
    case PollReady => s.place.Polling?
    case Resolve(_) => s.place.Ready?
    case Identify(_) => s.place.Bound?
    case OpenStreams => s.place.Identified?
    case Recheck(_) => s.place.Opened?
    case Activate => s.place.Rechecked?
    case Receive => s.place.Serving?
    case EndOfStream => s.place.Serving?
    case Raise => s.place in {Dialed, Connected, Polling, Ready, Bound, Identified, Opened, Serving}
    case CheckEnd => s.place.Returned? || s.place.Raised?
    case Reset => s.place.Ending?
    case Clear => s.place.Resetting?
    case Pause => s.place.Pausing?
    case SetStop => true
    case SetDraining => s.stop
  }

  /** The key a set of observed certificates is bound to: there must be exactly one, and it must
      be configured. */
  function BoundKey(table: map<string, string>, observed: set<string>): Option<(string, string)> {
    if |observed| != 1 then None
    else
      SingletonSize(observed);
      var fp: string :| fp in observed && observed == {fp};
      if fp in table then Some((fp, table[fp])) else None
  }

  function Do(s: Session, a: Step, setup: Setup): Session
    requires Enabled(s, a)
  {
    match a
    case CheckStop =>
      if s.stop then s.(place := Exited)
      else s.(place := Starting, verified := None, atResolve := {}, atRecheck := {})
    case Dial => s.(place := Dialed, state := CONNECTING)
    case Connect => s.(place := Connected, state := HANDSHAKING)
    case CheckReady => s.(place := if setup.fingerprints.None? then Bound else if s.stop then Raised else Polling)
    case PollAgain => s.(place := Connected)
    case PollReady => s.(place := Ready)
    case Resolve(observed) =>
      if setup.fingerprints.None? then s.(place := Bound)
      else
        var bound := BoundKey(setup.fingerprints.value, observed);
        if bound.None? then s.(place := Raised)
        else s.(place := Bound, verified := Some(bound.value.0), remoteId := Some(bound.value.1), atResolve := observed)
    case Identify(reported) =>
      var s1 := s.(reported := Some(reported));
      if setup.expectedId != "" && reported != setup.expectedId then s1.(place := Raised)
      else if setup.fingerprints.None? then s1.(place := Identified, remoteId := Some(reported))
      else s1.(place := Identified)
    case OpenStreams => s.(place := Opened)
    case Recheck(observed) =>
      if s.verified.Some? && observed != {s.verified.value} then s.(place := Raised)
      else s.(place := Rechecked, atRecheck := observed)
    case Activate => s.(place := Serving, state := ACTIVE)
    case Receive => if s.stop then s.(place := Returned) else s
    case EndOfStream => s.(place := Returned)
    case Raise => s.(place := Raised)
    case CheckEnd => s.(place := if (if s.place.Returned? then s.state == DRAINING else s.stop) then Exited else Ending)
    case Reset => s.(place := Resetting, state := RECONNECTING)
    case Clear => s.(place := Pausing, remoteId := None, reported := None)
    case Pause =>
      s.(place := LoopHead, delays := s.delays + [s.delay], delay := if 2 * s.delay < CAP then 2 * s.delay else CAP)
    case SetStop => s.(stop := true)
    case SetDraining => s.(state := DRAINING)
  }

  /** Where a run of steps leads from `s`; None when it is not possible. */
  function From(s: Session, run: seq<Step>, setup: Setup): Option<Session> {
    if run == [] then Some(s)
    else
      var before, a := From(s, run[..|run| - 1], setup), run[|run| - 1];
      if before.Some? && Enabled(before.value, a) then Some(Do(before.value, a, setup)) else None
  }

  function After(run: seq<Step>, setup: Setup): Option<Session> {
    From(Fresh(), run, setup)
  }

  lemma SingletonSize<T>(s: set<T>)
    ensures |s| == 1 <==> exists x :: x in s && s == {x}
  {
    if |s| == 1 {
      var x :| x in s;
      assert |s - {x}| == 0;
      assert s == {x};
    }
  }

  // ----- identity -----

  /** The session's policy key is the configured one of the single certificate that was seen
      before the first call. */
  predicate KeyBound(s: Session, table: map<string, string>) {
    && s.verified.Some? && s.verified.value in table
    && s.atResolve == {s.verified.value} && s.remoteId == Some(table[s.verified.value])
  }

  /** And that was also the only one seen once the streams were open. */
  predicate KeyConfirmed(s: Session, table: map<string, string>) {
    KeyBound(s, table) && s.atRecheck == {s.verified.value}
  }

  /** ACTIVE may be set from here on, until RECONNECTING replaces it. */
  predicate ActivePlace(place: Place) {
    place in {Serving, Returned, Raised, Ending, Exited}
  }

  predicate Identity(s: Session, table: map<string, string>) {
    && (s.place in {Bound, Identified, Opened} ==> KeyBound(s, table))
    && (s.place in {Rechecked, Serving, Returned} ==> KeyConfirmed(s, table))
    && (s.state == ACTIVE ==> KeyConfirmed(s, table) && ActivePlace(s.place))
  }

  lemma StepKeepsIdentity(s: Session, a: Step, setup: Setup)
    requires setup.fingerprints.Some? && Identity(s, setup.fingerprints.value) && Enabled(s, a)
    ensures Identity(Do(s, a, setup), setup.fingerprints.value)
  {}

  /** Certificate-bound identity, under every interleaving with a stop request: whenever the link
      is ACTIVE, its policy key is what the configuration says of the one certificate observed
      both before the first call and after the streams were open. */
  lemma {:induction false} ActiveMeansConfirmed(run: seq<Step>, setup: Setup)
    requires setup.fingerprints.Some? && After(run, setup).Some?
    ensures Identity(After(run, setup).value, setup.fingerprints.value)
    ensures After(run, setup).value.state == ACTIVE ==> KeyConfirmed(After(run, setup).value, setup.fingerprints.value)
  {
    if run != [] {
      var init := run[..|run| - 1];
      ActiveMeansConfirmed(init, setup);
      StepKeepsIdentity(After(init, setup).value, run[|run| - 1], setup);
    }
  }

  /** The same step with nothing left of what the peer reports but whether it is the expected id,
      where one is configured. */
  function Unreported(a: Step, setup: Setup): Step {
    if a.Identify? then Identify(if a.reported == setup.expectedId then a.reported else "") else a
  }

  function UnreportedAll(run: seq<Step>, setup: Setup): seq<Step> {
    seq(|run|, i requires 0 <= i < |run| => Unreported(run[i], setup))
  }

  lemma UnreportedStep(s: Session, a: Step, s': Session, a': Step, setup: Setup)
    requires setup.fingerprints.Some?
    requires s.(reported := None) == s'.(reported := None) && Unreported(a, setup) == Unreported(a', setup)
    ensures Enabled(s, a) <==> Enabled(s', a')
    ensures Enabled(s, a) ==> Do(s, a, setup).(reported := None) == Do(s', a', setup).(reported := None)
  {}

  /** With a registry, what a peer claims to be plays no part beyond being refused where it is
      not the expected id: two runs that differ only in reported ids, and not in which of them
      are the expected one, go through the same states, keys included. With no expected id
      configured they may differ in any way. */
  lemma {:induction false} ReportsDoNotMatter(run: seq<Step>, run': seq<Step>, setup: Setup)
    requires setup.fingerprints.Some?
    requires UnreportedAll(run, setup) == UnreportedAll(run', setup)
    ensures After(run, setup).Some? <==> After(run', setup).Some?
    ensures After(run, setup).Some? ==>
      After(run, setup).value.(reported := None) == After(run', setup).value.(reported := None)
    decreases |run|
  {
    assert |run| == |UnreportedAll(run, setup)| == |run'|;
    if run != [] {
      var n := |run| - 1;
      var init, init' := run[..n], run'[..n];
      assert UnreportedAll(init, setup) == UnreportedAll(run, setup)[..n] == UnreportedAll(init', setup);
      ReportsDoNotMatter(init, init', setup);
      assert Unreported(run[n], setup) == UnreportedAll(run, setup)[n] == UnreportedAll(run', setup)[n]
        == Unreported(run'[n], setup);
      if After(init, setup).Some? {
        UnreportedStep(After(init, setup).value, run[n], After(init', setup).value, run'[n], setup);
      }
    }
  }

  predicate AsExpected(s: Session, setup: Setup) {
    && (s.place in {Identified, Opened, Rechecked, Serving, Returned} ==> s.reported == Some(setup.expectedId))
    && (s.state == ACTIVE ==> s.reported == Some(setup.expectedId) && ActivePlace(s.place))
  }

  lemma ExpectedStep(s: Session, a: Step, setup: Setup)
    requires setup.expectedId != "" && AsExpected(s, setup) && Enabled(s, a)
    ensures AsExpected(Do(s, a, setup), setup)
  {}

  /** An expected id only ever refuses more: a run that is possible with it and ACTIVE is one
      in which the peer reported just that id. */
  lemma {:induction false} ExpectedIdIsReported(run: seq<Step>, setup: Setup)
    requires setup.expectedId != "" && After(run, setup).Some?
    ensures AsExpected(After(run, setup).value, setup)
  {
    if run != [] {
      var init := run[..|run| - 1];
      ExpectedIdIsReported(init, setup);
      ExpectedStep(After(init, setup).value, run[|run| - 1], setup);
    }
  }

  /** Outside a session, from the clearing of the last one to the binding of the next, the link has
      no key and no reported id. Without a registry the key is the id the peer reported. */
  predicate KeyOnlyInSession(s: Session, setup: Setup) {
    && (s.place in {LoopHead, Starting, Dialed, Connected, Polling, Ready, Pausing}
        ==> s.remoteId.None? && s.reported.None?)
    && (setup.fingerprints.None? && s.place in {Identified, Opened, Rechecked, Serving, Returned} ==>
        s.reported.Some? && s.remoteId == s.reported)
  }

  lemma KeyStep(s: Session, a: Step, setup: Setup)
    requires KeyOnlyInSession(s, setup) && Enabled(s, a)
    ensures KeyOnlyInSession(Do(s, a, setup), setup)
  {}

  lemma {:induction false} KeysAreOfTheSession(run: seq<Step>, setup: Setup)
    requires After(run, setup).Some?
    ensures KeyOnlyInSession(After(run, setup).value, setup)
  {
    if run != [] {
      var init := run[..|run| - 1];
      KeysAreOfTheSession(init, setup);
      KeyStep(After(init, setup).value, run[|run| - 1], setup);
    }
  }

  // ----- reconnecting -----

  /** Half a minute, doubled each time up to five minutes. */
  function Backoff(k: nat): int {
    if k == 0 then 30 else if k == 1 then 60 else if k == 2 then 120 else if k == 3 then 240 else 300
  }

  predicate OnSchedule(s: Session) {
    s.delay == Backoff(|s.delays|) && forall k | 0 <= k < |s.delays| :: s.delays[k] == Backoff(k)
  }

  lemma ScheduleStep(s: Session, a: Step, setup: Setup)
    requires OnSchedule(s) && Enabled(s, a)
    ensures OnSchedule(Do(s, a, setup))
  {
    var s' := Do(s, a, setup);
    if a.Pause? {
      assert s'.delays == s.delays + [s.delay];
    } else {
      assert s'.delays == s.delays && s'.delay == s.delay;
    }
  }

  /** The pauses of a session thread are set to 30, 60, 120, 240 and then always 300 seconds,
      however the sessions between them went. Each lasts that long unless a stop cuts it short. */
  lemma {:induction false} BackoffSchedule(run: seq<Step>, setup: Setup)
    requires After(run, setup).Some?
    ensures OnSchedule(After(run, setup).value)
  {
    if run != [] {
      var init := run[..|run| - 1];
      BackoffSchedule(init, setup);
      ScheduleStep(After(init, setup).value, run[|run| - 1], setup);
    }
  }

  /** The back-off does not start over after a good session: whatever it served before, a session
      that ends by itself is followed by the pause that is next in line, the shortest one only if
      it is the first. */
  lemma PauseAfterService(run: seq<Step>, setup: Setup)
    requires After(run, setup).Some?
    requires var s := After(run, setup).value; s.place.Serving? && s.state == ACTIVE
    ensures var s := After(run, setup).value;
      var end := From(s, [EndOfStream, CheckEnd, Reset, Clear, Pause], setup);
      && end.Some? && end.value.delays == s.delays + [Backoff(|s.delays|)]
      && (Backoff(|s.delays|) == 30 <==> s.delays == [])
  {
    var s := After(run, setup).value;
    BackoffSchedule(run, setup);
    var rest := Then(s, [], EndOfStream, setup);
    rest := Then(s, rest, CheckEnd, setup);
    rest := Then(s, rest, Reset, setup);
    rest := Then(s, rest, Clear, setup);
    rest := Then(s, rest, Pause, setup);
    assert rest == [EndOfStream, CheckEnd, Reset, Clear, Pause];
  }

  // ----- stopping -----

  predicate OfThread(a: Step) {
    !a.SetStop? && !a.SetDraining?
  }

  /** A step the thread takes without anything happening at the peer or going wrong. */
  predicate Own(a: Step) {
    OfThread(a) && !a.Identify? && !a.Receive? && !a.EndOfStream? && !a.Raise?
  }

  /** The calls without a deadline: nothing but the peer, or the loss of it, ends them. */
  predicate AwaitsPeer(place: Place) {
    place.Bound? || place.Serving?
  }

  function ThreadSteps(run: seq<Step>): nat {
    if run == [] then 0
    else ThreadSteps(run[..|run| - 1]) + if OfThread(run[|run| - 1]) then 1 else 0
  }

  function ToGo(place: Place): nat {
    match place
    case Starting => 15
    case Dialed => 14
    case Polling => 13
    case Connected => 12
    case Ready => 11
    case Bound => 10
    case Identified => 9
    case Opened => 8
    case Rechecked => 7
    case Serving => 6
    case Returned => 5
    case Raised => 5
    case Ending => 4
    case Resetting => 3
    case Pausing => 2
    case LoopHead => 1
    case Exited => 0
  }

  /** Short of its end, the thread can always move on its own except while it awaits the peer. */
  lemma NextOfThread(s: Session)
    ensures (exists a :: Enabled(s, a) && Own(a)) <==> !s.place.Exited? && !AwaitsPeer(s.place)
  {
    if !s.place.Exited? && !AwaitsPeer(s.place) {
      var a := match s.place
        case LoopHead => CheckStop
        case Starting => Dial
        case Dialed => Connect
        case Connected => CheckReady
        case Polling => PollAgain
        case Ready => Resolve({})
        case Identified => OpenStreams
        case Opened => Recheck({})
        case Rechecked => Activate
        case Ending => Reset
        case Resetting => Clear
        case Pausing => Pause
        case _ => CheckEnd;
      assert Enabled(s, a) && Own(a);
    }
  }

  /** Once a stop is requested the thread has at most fifteen steps left, whatever the outside
      does, and it starts no other session. It ends up exited, or awaiting the peer; an event, an
      answer, the end of the stream or an error then takes it on, and nothing else does. */
  lemma {:induction false} StoppedThreadExits(s: Session, run: seq<Step>, setup: Setup)
    requires s.stop && From(s, run, setup).Some?
    ensures var s' := From(s, run, setup).value;
      && s'.stop && ThreadSteps(run) + ToGo(s'.place) <= ToGo(s.place) <= 15
      && ((exists a :: Enabled(s', a) && Own(a)) <==> !s'.place.Exited? && !AwaitsPeer(s'.place))
  {
    if run != [] {
      var init := run[..|run| - 1];
      StoppedThreadExits(s, init, setup);
      StoppedStep(From(s, init, setup).value, run[|run| - 1], setup);
    }
    NextOfThread(From(s, run, setup).value);
  }

  lemma StoppedStep(s: Session, a: Step, setup: Setup)
    requires s.stop && Enabled(s, a)
    ensures Do(s, a, setup).stop && ToGo(Do(s, a, setup).place) + (if OfThread(a) then 1 else 0) <= ToGo(s.place)
  {}

  /** With a silent peer the thread stays where it awaits it, whatever the other thread does. */
  predicate Unattended(run: seq<Step>) {
    forall i | 0 <= i < |run| :: Own(run[i]) || !OfThread(run[i])
  }

  lemma {:induction false} SilentPeerHoldsThread(s: Session, run: seq<Step>, setup: Setup)
    requires AwaitsPeer(s.place) && From(s, run, setup).Some?
    requires Unattended(run)
    ensures From(s, run, setup).value.place == s.place
  {
    if run != [] {
      SilentPeerHoldsThread(s, run[..|run| - 1], setup);
      assert Own(run[|run| - 1]) || !OfThread(run[|run| - 1]);
    }
  }

  lemma {:induction false} FirstStep(s: Session, a: Step, rest: seq<Step>, setup: Setup)
    requires Enabled(s, a)
    ensures From(s, [a] + rest, setup) == From(Do(s, a, setup), rest, setup)
  {
    var run := [a] + rest;
    if rest == [] {
      assert run[..0] == [];
    } else {
      assert run[..|run| - 1] == [a] + rest[..|rest| - 1];
      FirstStep(s, a, rest[..|rest| - 1], setup);
    }
  }

  // ----- whether a stop ends the thread -----

  /** With nothing more from the peer and no error, the thread can come to await the peer. */
  ghost predicate CanWait(s: Session, setup: Setup) {
    exists run: seq<Step> :: Unattended(run) && From(s, run, setup).Some? && AwaitsPeer(From(s, run, setup).value.place)
  }

  /** The thread awaits the peer, or its setup has got past the last look at the stop flag and
      leads to a call that does. */
  predicate WillWait(s: Session, setup: Setup) {
    || s.place in {Bound, Identified, Opened, Rechecked, Serving}
    || (s.place in {Starting, Dialed, Connected} && setup.fingerprints.None?)
    || (s.place in {Polling, Ready} && setup.fingerprints != Some(map[]))
  }

  lemma WaitStep(s: Session, a: Step, setup: Setup)
    requires s.stop && !WillWait(s, setup) && Enabled(s, a)
    ensures Do(s, a, setup).stop && !WillWait(Do(s, a, setup), setup)
  {}

  lemma {:induction false} NeverWaits(s: Session, run: seq<Step>, setup: Setup)
    requires s.stop && !WillWait(s, setup) && From(s, run, setup).Some?
    ensures From(s, run, setup).value.stop && !WillWait(From(s, run, setup).value, setup)
  {
    if run != [] {
      var init := run[..|run| - 1];
      NeverWaits(s, init, setup);
      WaitStep(From(s, init, setup).value, run[|run| - 1], setup);
    }
  }

  lemma {:induction false} ComesToWait(s: Session, setup: Setup) returns (run: seq<Step>)
    requires WillWait(s, setup)
    ensures Unattended(run) && From(s, run, setup).Some?
    ensures var s' := From(s, run, setup).value; AwaitsPeer(s'.place) && (s.stop ==> s'.stop)
    decreases ToGo(s.place)
  {
    if AwaitsPeer(s.place) {
      run := [];
    } else {
      var a := GoesOn(s, setup);
      var rest := ComesToWait(Do(s, a, setup), setup);
      FirstStep(s, a, rest, setup);
      run := [a] + rest;
      assert forall i | 0 < i < |run| :: run[i] == rest[i - 1];
    }
  }

  /** At any moment after a stop request: the thread can come to hang on the peer if and only if
      it awaits it already or is past its last look at the stop flag. Otherwise it ends, whatever
      happens, and within the fifteen steps it has left. */
  lemma StopEndsThreadExactly(s: Session, setup: Setup)
    requires s.stop
    ensures CanWait(s, setup) <==> WillWait(s, setup)
    ensures !WillWait(s, setup) ==> EndsByItself(s, setup)
  {
    if WillWait(s, setup) {
      var run := ComesToWait(s, setup);
    } else {
      forall run: seq<Step> | From(s, run, setup).Some?
        ensures !AwaitsPeer(From(s, run, setup).value.place) && OwnOrExited(From(s, run, setup).value)
      {
        NeverWaits(s, run, setup);
        NextOfThread(From(s, run, setup).value);
      }
    }
  }

  ghost predicate OwnOrExited(s: Session) {
    s.place.Exited? || exists a :: Enabled(s, a) && Own(a)
  }

  /** Wherever any run leads, the thread has exited or has a step of its own to take. */
  ghost predicate EndsByItself(s: Session, setup: Setup) {
    forall run: seq<Step> :: From(s, run, setup).Some? ==> OwnOrExited(From(s, run, setup).value)
  }

  ghost predicate HangsStopped(run: seq<Step>, setup: Setup) {
    && After(run, setup).Some? && SetDraining in run && After(run, setup).value.stop
    && AwaitsPeer(After(run, setup).value.place)
  }

  /** From the start: a stopped thread can hang on a silent peer, exactly when the configuration
      lets any session get to its first call. */
  lemma StopCanHang(setup: Setup)
    ensures (exists run :: HangsStopped(run, setup)) <==> setup.fingerprints != Some(map[])
  {
    if setup.fingerprints == Some(map[]) {
      forall run | After(run, setup).Some? ensures !AwaitsPeer(After(run, setup).value.place) {
        ActiveMeansConfirmed(run, setup);
      }
    } else {
      var run := StoppedInSetup(setup);
      var rest := ComesToWait(After(run, setup).value, setup);
      Onward(Fresh(), run, rest, setup);
      assert (run + rest)[5] == SetDraining;
      assert HangsStopped(run + rest, setup);
    }
  }

  /** A stop requested while the session is set up, past its look at the stop flag. */
  lemma StoppedInSetup(setup: Setup) returns (run: seq<Step>)
    ensures After(run, setup).Some? && |run| == 6 && run[5] == SetDraining
    ensures var s := After(run, setup).value; s.stop && s.place == if setup.fingerprints.None? then Bound else Polling
  {
    Dialing(setup);
    run := [CheckStop, Dial];
    run := Then(Fresh(), run, Connect, setup);
    assert After(run, setup) == Some(Fresh().(place := Connected, state := HANDSHAKING));
    run := Then(Fresh(), run, CheckReady, setup);
    run := Then(Fresh(), run, SetStop, setup);
    run := Then(Fresh(), run, SetDraining, setup);
  }

  // ----- what a stop leaves in the state -----

  ghost predicate DrainingIsFinal(s: Session, setup: Setup) {
    forall run: seq<Step> :: From(s, run, setup).Some? ==> From(s, run, setup).value.state == DRAINING
  }

  /** The thread is going to write the state once more: it is setting a session up, or it has
      looked for a stop after one, in vain, and is about to set RECONNECTING. A setup that waits
      for its channel is given up instead once a stop is requested, and where no certificate is
      configured it is bound to fail. */
  predicate Overwrites(s: Session, setup: Setup) {
    || s.place in {Starting, Dialed, Bound, Identified, Opened, Rechecked, Ending}
    || (s.place.Connected? && setup.fingerprints.None?)
    || (s.place in {Polling, Ready} && setup.fingerprints != Some(map[]))
  }

  lemma StepKeepsDraining(s: Session, a: Step, setup: Setup)
    requires s.stop && s.state == DRAINING && !Overwrites(s, setup) && Enabled(s, a)
    ensures var s' := Do(s, a, setup); s'.stop && s'.state == DRAINING && !Overwrites(s', setup)
  {}

  lemma {:induction false} StaysDraining(s: Session, run: seq<Step>, setup: Setup)
    requires s.stop && s.state == DRAINING && !Overwrites(s, setup) && From(s, run, setup).Some?
    ensures var s' := From(s, run, setup).value; s'.stop && s'.state == DRAINING && !Overwrites(s', setup)
  {
    if run != [] {
      var init := run[..|run| - 1];
      StaysDraining(s, init, setup);
      StepKeepsDraining(From(s, init, setup).value, run[|run| - 1], setup);
    }
  }

  /** The step by which an undisturbed thread comes to write the state. */
  ghost function GoesOn(s: Session, setup: Setup): (a: Step)
    requires Overwrites(s, setup)
    ensures Enabled(s, a) && ToGo(Do(s, a, setup).place) < ToGo(s.place)
    ensures Do(s, a, setup).stop == s.stop && Own(a) == !s.place.Bound?
    ensures WillWait(s, setup) && !AwaitsPeer(s.place) ==> WillWait(Do(s, a, setup), setup)
    ensures Do(s, a, setup).state == s.state
      ==> Overwrites(Do(s, a, setup), setup) || s.place in {Starting, Dialed, Rechecked, Ending}
  {
    match s.place
    case Starting => Dial
    case Dialed => Connect
    case Connected => CheckReady
    case Polling => PollReady
    case Ready =>
      if setup.fingerprints.None? then Resolve({})
      else
        var fp :| fp in setup.fingerprints.value;
        SingletonSize({fp});
        Resolve({fp})
    case Bound => Identify(setup.expectedId)
    case Identified => OpenStreams
    case Opened => if s.verified.Some? then Recheck({s.verified.value}) else Recheck({})
    case Ending => Reset
    case _ => Activate
  }

  lemma {:induction false} Overwritten(s: Session, setup: Setup) returns (run: seq<Step>)
    requires Overwrites(s, setup)
    ensures From(s, run, setup).Some? && From(s, run, setup).value.state != DRAINING
    decreases ToGo(s.place)
  {
    var a := GoesOn(s, setup);
    var s' := Do(s, a, setup);
    var rest: seq<Step> := [];
    if s'.state == DRAINING {
      rest := Overwritten(s', setup);
    }
    FirstStep(s, a, rest, setup);
    run := [a] + rest;
  }

  /** A stop request is not always the last word: DRAINING stays, whatever happens next, if and
      only if the thread is not going to write the state once more. */
  lemma DrainingIsFinalExactly(s: Session, setup: Setup)
    requires s.stop && s.state == DRAINING
    ensures DrainingIsFinal(s, setup) <==> !Overwrites(s, setup)
  {
    if Overwrites(s, setup) {
      var run := Overwritten(s, setup);
    } else {
      forall run: seq<Step> | From(s, run, setup).Some? ensures From(s, run, setup).value.state == DRAINING {
        StaysDraining(s, run, setup);
      }
    }
  }

  /** One more step at the end of a run. */
  lemma Then(s: Session, run: seq<Step>, a: Step, setup: Setup) returns (longer: seq<Step>)
    requires From(s, run, setup).Some? && Enabled(From(s, run, setup).value, a)
    ensures longer == run + [a] && From(s, longer, setup) == Some(Do(From(s, run, setup).value, a, setup))
  {
    longer := run + [a];
    assert longer[..|run|] == run;
  }

  lemma Dialing(setup: Setup)
    ensures After([CheckStop, Dial], setup) == Some(Fresh().(place := Dialed, state := CONNECTING))
  {
    var run := Then(Fresh(), [], CheckStop, setup);
    run := Then(Fresh(), run, Dial, setup);
    assert run == [CheckStop, Dial];
  }

  /** DRAINING overwritten while a session is set up: the state goes on to HANDSHAKING. */
  lemma DrainingIsNotFinal(setup: Setup)
    ensures var s := After([CheckStop, Dial, SetStop, SetDraining, Connect], setup);
      s.Some? && s.value.stop && s.value.state == HANDSHAKING
  {
    Dialing(setup);
    var run := [CheckStop, Dial];
    run := Then(Fresh(), run, SetStop, setup);
    run := Then(Fresh(), run, SetDraining, setup);
    run := Then(Fresh(), run, Connect, setup);
    assert run == [CheckStop, Dial, SetStop, SetDraining, Connect];
  }

  /** A stop can come between the thread's look at the stop flag and its setting RECONNECTING. */
  lemma StopAfterTheLook(setup: Setup)
    ensures After([CheckStop, Dial, Raise, CheckEnd, SetStop, SetDraining], setup)
      == Some(Fresh().(place := Ending, state := DRAINING, stop := true))
  {
    Dialing(setup);
    var run := [CheckStop, Dial];
    run := Then(Fresh(), run, Raise, setup);
    assert After(run, setup) == Some(Fresh().(place := Raised, state := CONNECTING));
    run := Then(Fresh(), run, CheckEnd, setup);
    run := Then(Fresh(), run, SetStop, setup);
    run := Then(Fresh(), run, SetDraining, setup);
    assert run == [CheckStop, Dial, Raise, CheckEnd, SetStop, SetDraining];
  }

  /** DRAINING overwritten although the session is over: the thread sets RECONNECTING, sees the
      stop at its loop head, and exits so marked. */
  lemma ReconnectingOverwritesDraining(setup: Setup)
    ensures var s := After([CheckStop, Dial, Raise, CheckEnd, SetStop, SetDraining] + [Reset, Clear, Pause, CheckStop],
                           setup);
      s.Some? && s.value.stop && s.value.place.Exited? && s.value.state == RECONNECTING
  {
    StopAfterTheLook(setup);
    var s := Fresh().(place := Ending, state := DRAINING, stop := true);
    var rest := Then(s, [], Reset, setup);
    rest := Then(s, rest, Clear, setup);
    rest := Then(s, rest, Pause, setup);
    rest := Then(s, rest, CheckStop, setup);
    assert rest == [Reset, Clear, Pause, CheckStop];
    Onward(Fresh(), [CheckStop, Dial, Raise, CheckEnd, SetStop, SetDraining], rest, setup);
  }

  // ----- leaving the link ACTIVE -----

  predicate LeftActive(s: Session) {
    s.place.Exited? && s.state == ACTIVE
  }

  ghost predicate CanLeaveActive(s: Session, setup: Setup) {
    exists run: seq<Step> :: From(s, run, setup).Some? && LeftActive(From(s, run, setup).value)
  }

  /** ACTIVE is still to be set, or it is set and the session can still fail. */
  predicate HeadsActive(s: Session, setup: Setup) {
    || s.place in {Bound, Identified, Opened, Rechecked}
    || (s.place in {Starting, Dialed, Connected} && setup.fingerprints.None?)
    || (s.place in {Polling, Ready} && setup.fingerprints != Some(map[]))
    || (s.place in {Serving, Raised, Exited} && s.state == ACTIVE)
  }

  lemma {:induction false} ActivePlaces(run: seq<Step>, setup: Setup)
    requires After(run, setup).Some? && After(run, setup).value.state == ACTIVE
    ensures ActivePlace(After(run, setup).value.place)
  {
    if After(run[..|run| - 1], setup).value.state == ACTIVE {
      ActivePlaces(run[..|run| - 1], setup);
    }
  }

  lemma {:induction false} NeverLeavesActive(s: Session, run: seq<Step>, setup: Setup)
    requires s.stop && !HeadsActive(s, setup) && (s.state == ACTIVE ==> ActivePlace(s.place))
    requires From(s, run, setup).Some?
    ensures var s' := From(s, run, setup).value;
      s'.stop && !HeadsActive(s', setup) && (s'.state == ACTIVE ==> ActivePlace(s'.place))
  {
    if run != [] {
      NeverLeavesActive(s, run[..|run| - 1], setup);
    }
  }

  lemma {:induction false} LeavesActive(s: Session, setup: Setup) returns (run: seq<Step>)
    requires s.stop && HeadsActive(s, setup)
    ensures From(s, run, setup).Some? && LeftActive(From(s, run, setup).value)
    decreases ToGo(s.place)
  {
    if s.place.Exited? {
      run := [];
    } else {
      var a := if s.place.Serving? then Raise else if s.place.Raised? then CheckEnd else GoesOn(s, setup);
      assert HeadsActive(Do(s, a, setup), setup) && ToGo(Do(s, a, setup).place) < ToGo(s.place);
      var rest := LeavesActive(Do(s, a, setup), setup);
      FirstStep(s, a, rest, setup);
      run := [a] + rest;
    }
  }

  /** After any run in which a stop was requested: the thread can still exit and leave the link
      marked ACTIVE if and only if its setup has got past the last look at the stop
      flag and a certificate can be bound, or ACTIVE is set and the session is being served or
      has failed. */
  lemma LeavesActiveExactly(run: seq<Step>, setup: Setup)
    requires After(run, setup).Some? && After(run, setup).value.stop
    ensures CanLeaveActive(After(run, setup).value, setup) <==> HeadsActive(After(run, setup).value, setup)
  {
    var s := After(run, setup).value;
    if HeadsActive(s, setup) {
      var rest := LeavesActive(s, setup);
    } else {
      if s.state == ACTIVE {
        ActivePlaces(run, setup);
      }
      forall rest: seq<Step> | From(s, rest, setup).Some? ensures !LeftActive(From(s, rest, setup).value) {
        NeverLeavesActive(s, rest, setup);
      }
    }
  }

  lemma {:induction false} Onward(s: Session, run: seq<Step>, rest: seq<Step>, setup: Setup)
    requires From(s, run, setup).Some?
    ensures From(s, run + rest, setup) == From(From(s, run, setup).value, rest, setup)
  {
    if rest == [] {
      assert run + rest == run;
    } else {
      assert (run + rest)[..|run + rest| - 1] == run + rest[..|rest| - 1];
      Onward(s, run, rest[..|rest| - 1], setup);
    }
  }

  ghost predicate StoppedYetActive(run: seq<Step>, setup: Setup) {
    After(run, setup).Some? && SetDraining in run && LeftActive(After(run, setup).value)
  }

  /** From the start: a stop request can end with an exited thread and a link marked ACTIVE,
      exactly when the configuration lets any session go ACTIVE at all. */
  lemma StopCanLeaveActive(setup: Setup)
    ensures (exists run :: StoppedYetActive(run, setup)) <==> setup.fingerprints != Some(map[])
  {
    if setup.fingerprints == Some(map[]) {
      forall run | After(run, setup).Some? ensures After(run, setup).value.state != ACTIVE {
        ActiveMeansConfirmed(run, setup);
      }
    } else {
      var run := StoppedInSetup(setup);
      var s := After(run, setup).value;
      var rest := LeavesActive(s, setup);
      Onward(Fresh(), run, rest, setup);
      assert (run + rest)[5] == SetDraining;
      assert StoppedYetActive(run + rest, setup);
    }
  }
}
