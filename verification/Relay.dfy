/** A mesh of federation servers relaying one event. Every server delivers what it accepts and
    fans it out again; messages are in flight between servers and may be delivered in any
    order. The topology is arbitrary: cycles, duplicate links and self links included. */
module Relay {
  import opened Wrappers
  import opened Groups
  import opened Codec

  // ----- the mesh -----

  /** How a message enters a server: the policy key its certificate is bound to, and, when it
      came in on a connection the server itself dialed, that link's position. */
  datatype Entry = Entry(key: string, dialed: Option<nat>)

  datatype Side = DialedSide | ListenSide

  /** An established link. `freshHops` is the budget stamped on events that start here. */
  datatype Link = Link(side: Side, key: string, dest: nat, entry: Entry, freshHops: int)

  /** `admitsType`: the DELETE guard lets this event's type in. */
  datatype Node = Node(id: string, ceiling: int, tables: Tables, admitsType: bool, links: seq<Link>)

  type Mesh = seq<Node>

  /** Links lead to servers of the mesh, and policy keys are bound. */
  predicate Wired(mesh: Mesh) {
    forall n, j | 0 <= n < |mesh| && 0 <= j < |mesh[n].links| ::
      mesh[n].links[j].dest < |mesh| && mesh[n].links[j].key != ""
  }

  predicate DegreeWithin(mesh: Mesh, d: nat) {
    forall n | 0 <= n < |mesh| :: |mesh[n].links| <= d
  }

  function Ids(mesh: Mesh): set<string> {
    set n | 0 <= n < |mesh| :: mesh[n].id
  }

  // ----- one hop -----

  /** A message in flight. `route` records the links taken so far. */
  datatype Msg = Msg(at: nat, entry: Entry, meta: FedMeta, groups: set<string>, route: seq<nat>)

  /** An event at a server, ready to be fanned out; `entry` is None where it starts. */
  datatype Held = Held(at: nat, entry: Option<Entry>, meta: Option<FedMeta>, acl: set<string>, route: seq<nat>)

  /** Fan-out never sends back on the dialed connection an event came from, nor to an inbound
      link of the peer it came from. */
  predicate Skips(link: Link, j: nat, entry: Option<Entry>) {
    entry.Some? && if link.side.DialedSide? then entry.value.dialed == Some(j) else entry.value.key == link.key
  }

  /** The first group of an event, in the unknown order its set is iterated in. */
  ghost function Probe(acl: set<string>): (p: Option<string>)
    ensures FirstOf(acl, p)
  {
    if acl == {} then None else var g :| g in acl; Some(g)
  }

  predicate OnLink(mesh: Mesh, held: Held, j: nat) {
    held.at < |mesh| && j < |mesh[held.at].links|
  }

  /** What a server puts on its link `j` for an event it holds. */
  ghost function Send(mesh: Mesh, held: Held, j: nat): Option<Msg> {
    if !OnLink(mesh, held, j) then None
    else
      var node, link := mesh[held.at], mesh[held.at].links[j];
      if Skips(link, j, held.entry) then None
      else match Prepare(held.meta, held.acl, Probe(held.acl), node.id, link.freshHops, Some(node.tables), link.key)
        case Dropped(_) => None
        case Sent(meta, groups) => Some(Msg(link.dest, link.entry, meta, groups, held.route + [j]))
  }

  /** What a server makes of a message: the event with the groups it is admitted into, or a drop. */
  function Receive(mesh: Mesh, m: Msg): Option<Held> {
    if m.at >= |mesh| then None
    else
      var node := mesh[m.at];
      var acl := Admitted(node.tables, m.entry.key, m.groups);
      if !node.admitsType || acl == {} then None
      else Some(Held(m.at, Some(m.entry), Some(Received(m.meta, node.ceiling)), acl, m.route))
  }

  function Links(mesh: Mesh, n: nat): nat {
    if n < |mesh| then |mesh[n].links| else 0
  }

  /** The messages put on the first `n` links. */
  ghost function Emit(mesh: Mesh, held: Held, n: nat): seq<Msg> {
    if n == 0 then []
    else match Send(mesh, held, n - 1)
      case None => Emit(mesh, held, n - 1)
      case Some(m) => Emit(mesh, held, n - 1) + [m]
  }

  ghost function FanOut(mesh: Mesh, held: Held): seq<Msg> {
    Emit(mesh, held, Links(mesh, held.at))
  }

  // ----- runs -----

  datatype State = State(inFlight: seq<Msg>, delivered: multiset<Held>)

  /** An event starting at server `o`. */
  function Origin(o: nat, acl: set<string>): Held {
    Held(o, None, None, acl, [])
  }

  ghost function Start(mesh: Mesh, o: nat, acl: set<string>): State {
    State(FanOut(mesh, Origin(o, acl)), multiset{})
  }

  /** Message `i` arrives: it is delivered and fanned out again, or dropped. */
  ghost function Deliver(mesh: Mesh, s: State, i: nat): State
    requires i < |s.inFlight|
  {
    var rest := s.inFlight[..i] + s.inFlight[i + 1..];
    match Receive(mesh, s.inFlight[i])
    case None => State(rest, s.delivered)
    case Some(held) => State(rest + FanOut(mesh, held), s.delivered + multiset{held})
  }

  ghost predicate Step(mesh: Mesh, s: State, s': State) {
    exists i :: 0 <= i < |s.inFlight| && s' == Deliver(mesh, s, i)
  }

  ghost predicate Run(mesh: Mesh, o: nat, acl: set<string>, run: seq<State>) {
    && run != [] && run[0] == Start(mesh, o, acl)
    && forall k | 0 < k < |run| :: Step(mesh, run[k - 1], run[k])
  }

  predicate Complete(run: seq<State>) {
    run != [] && run[|run| - 1].inFlight == []
  }

  // ----- termination -----

  function ChainOf(held: Held): seq<string> {
    if held.meta.None? then [] else held.meta.value.chain
  }

  /** How many server ids a chain does not cover yet. */
  function Missing(mesh: Mesh, chain: seq<string>): nat {
    |Ids(mesh) - Elements(chain)|
  }

  lemma MissingAppend(mesh: Mesh, chain: seq<string>, id: string)
    requires id in Ids(mesh) && id !in chain
    ensures Missing(mesh, chain + [id]) + 1 == Missing(mesh, chain)
  {
    ElementsAppend(chain, id);
    var rest := Ids(mesh) - Elements(chain + [id]);
    assert id !in rest && id !in Elements(chain);
    assert Ids(mesh) - Elements(chain) == rest + {id};
  }

  lemma SendChain(mesh: Mesh, held: Held, j: nat)
    requires Send(mesh, held, j).Some?
    ensures var m := Send(mesh, held, j).value;
      && OnLink(mesh, held, j) && m.route == held.route + [j]
      && mesh[held.at].id !in ChainOf(held)
      && m.meta.chain == ChainOf(held) + [mesh[held.at].id]
  {}

  /** A message a server sends covers one more id than the event it held. */
  lemma SendCoversOneMore(mesh: Mesh, held: Held, j: nat)
    requires Send(mesh, held, j).Some?
    ensures Missing(mesh, Send(mesh, held, j).value.meta.chain) + 1 == Missing(mesh, ChainOf(held))
  {
    SendChain(mesh, held, j);
    assert mesh[held.at].id in Ids(mesh);
    MissingAppend(mesh, ChainOf(held), mesh[held.at].id);
  }

  function Pow(b: nat, e: nat): nat {
    if e == 0 then 1 else b * Pow(b, e - 1)
  }

  lemma {:induction false} PowPositive(b: nat, e: nat)
    requires b > 0
    ensures Pow(b, e) > 0
  {
    if e > 0 {
      PowPositive(b, e - 1);
    }
  }

  function Weight(mesh: Mesh, d: nat, m: Msg): nat {
    Pow(d + 1, Missing(mesh, m.meta.chain))
  }

  function Load(mesh: Mesh, d: nat, ms: seq<Msg>): nat {
    if ms == [] then 0 else Load(mesh, d, ms[..|ms| - 1]) + Weight(mesh, d, ms[|ms| - 1])
  }

  lemma {:induction false} LoadConcat(mesh: Mesh, d: nat, a: seq<Msg>, b: seq<Msg>)
    ensures Load(mesh, d, a + b) == Load(mesh, d, a) + Load(mesh, d, b)
  {
    if b == [] {
      assert a + b == a;
    } else {
      LoadConcat(mesh, d, a, b[..|b| - 1]);
      assert (a + b)[..|a + b| - 1] == a + b[..|b| - 1];
    }
  }

  lemma LoadSnoc(mesh: Mesh, d: nat, ms: seq<Msg>, m: Msg)
    ensures Load(mesh, d, ms + [m]) == Load(mesh, d, ms) + Weight(mesh, d, m)
  {
    assert (ms + [m])[..|ms|] == ms;
  }

  lemma SentWeight(mesh: Mesh, d: nat, held: Held, j: nat, k: nat)
    requires Send(mesh, held, j).Some? && Missing(mesh, ChainOf(held)) == k + 1
    ensures Weight(mesh, d, Send(mesh, held, j).value) == Pow(d + 1, k)
  {
    SendCoversOneMore(mesh, held, j);
  }

  lemma OneMore(n: nat, p: nat)
    ensures n * p + p == (n + 1) * p
  {}

  lemma EmitStep(mesh: Mesh, d: nat, held: Held, n: nat, k: nat)
    requires Missing(mesh, ChainOf(held)) == k + 1
    ensures Load(mesh, d, Emit(mesh, held, n + 1)) <= Load(mesh, d, Emit(mesh, held, n)) + Pow(d + 1, k)
  {
    if Send(mesh, held, n).Some? {
      SentWeight(mesh, d, held, n, k);
      LoadSnoc(mesh, d, Emit(mesh, held, n), Send(mesh, held, n).value);
    }
  }

  lemma {:induction false} Climbs(load: nat -> nat, n: nat, p: nat)
    requires load(0) == 0 && forall i: nat :: load(i + 1) <= load(i) + p
    ensures load(n) <= n * p
  {
    if n > 0 {
      Climbs(load, n - 1, p);
      OneMore(n - 1, p);
      assert load((n - 1) + 1) <= load(n - 1) + p;
    }
  }

  lemma {:induction false} EmitNothing(mesh: Mesh, held: Held, n: nat)
    requires Missing(mesh, ChainOf(held)) == 0
    ensures Emit(mesh, held, n) == []
  {
    if n > 0 {
      EmitNothing(mesh, held, n - 1);
      if Send(mesh, held, n - 1).Some? {
        SendCoversOneMore(mesh, held, n - 1);
      }
    }
  }

  lemma EmitLoad(mesh: Mesh, d: nat, held: Held, n: nat, k: nat, p: nat)
    requires Missing(mesh, ChainOf(held)) == k + 1 && p == Pow(d + 1, k)
    ensures Load(mesh, d, Emit(mesh, held, n)) <= n * p
  {
    ghost var load: nat -> nat := (i: nat) => Load(mesh, d, Emit(mesh, held, i));
    forall i: nat ensures load(i + 1) <= load(i) + p {
      EmitStep(mesh, d, held, i, k);
    }
    Climbs(load, n, p);
  }

  lemma TimesMonotone(n: nat, d: nat, p: nat)
    requires n <= d && p > 0
    ensures n * p <= d * p < (d + 1) * p
  {}

  lemma PowStep(b: nat, k: nat, p: nat)
    requires p == Pow(b, k)
    ensures Pow(b, k + 1) == b * p
  {}

  lemma FanOutLoad(mesh: Mesh, d: nat, held: Held, k: nat, p: nat)
    requires DegreeWithin(mesh, d) && Missing(mesh, ChainOf(held)) == k + 1 && p == Pow(d + 1, k) && p > 0
    ensures Load(mesh, d, FanOut(mesh, held)) <= d * p < (d + 1) * p
  {
    EmitLoad(mesh, d, held, Links(mesh, held.at), k, p);
    TimesMonotone(Links(mesh, held.at), d, p);
  }

  lemma FanOutLighter(mesh: Mesh, d: nat, held: Held)
    requires DegreeWithin(mesh, d)
    ensures Load(mesh, d, FanOut(mesh, held)) < Pow(d + 1, Missing(mesh, ChainOf(held)))
  {
    var k := Missing(mesh, ChainOf(held));
    if k == 0 {
      EmitNothing(mesh, held, Links(mesh, held.at));
      PowPositive(d + 1, k);
    } else {
      var p := Pow(d + 1, k - 1);
      PowPositive(d + 1, k - 1);
      FanOutLoad(mesh, d, held, k - 1, p);
      PowStep(d + 1, k - 1, p);
    }
  }

  lemma StepLightens(mesh: Mesh, d: nat, s: State, i: nat)
    requires DegreeWithin(mesh, d) && i < |s.inFlight|
    ensures Load(mesh, d, Deliver(mesh, s, i).inFlight) < Load(mesh, d, s.inFlight)
  {
    var m, a, b := s.inFlight[i], s.inFlight[..i], s.inFlight[i + 1..];
    assert s.inFlight == a + [m] + b;
    LoadConcat(mesh, d, a + [m], b);
    LoadConcat(mesh, d, a, [m]);
    LoadConcat(mesh, d, a, b);
    assert Load(mesh, d, [m]) == Weight(mesh, d, m) by {
      assert [m][..0] == [];
    }
    PowPositive(d + 1, Missing(mesh, m.meta.chain));
    if Receive(mesh, m).Some? {
      var held := Receive(mesh, m).value;
      FanOutLighter(mesh, d, held);
      LoadConcat(mesh, d, a + b, FanOut(mesh, held));
    }
  }

  lemma {:induction false} RunLength(mesh: Mesh, d: nat, o: nat, acl: set<string>, run: seq<State>)
    requires DegreeWithin(mesh, d) && Run(mesh, o, acl, run)
    ensures |run| - 1 + Load(mesh, d, run[|run| - 1].inFlight) <= Load(mesh, d, run[0].inFlight)
    ensures |run[|run| - 1].delivered| <= |run| - 1
  {
    if |run| > 1 {
      var init := run[..|run| - 1];
      RunLength(mesh, d, o, acl, init);
      var s, s' := run[|run| - 2], run[|run| - 1];
      var i :| 0 <= i < |s.inFlight| && s' == Deliver(mesh, s, i);
      StepLightens(mesh, d, s, i);
    }
  }

  /** Every flood ends: with `d` links a server at most and `n` distinct server ids, no run
      from server `o` takes more than d * (d + 1)^(n - 1) deliveries. */
  lemma FloodTerminates(mesh: Mesh, d: nat, o: nat, acl: set<string>, run: seq<State>)
    requires DegreeWithin(mesh, d) && o < |mesh| && Run(mesh, o, acl, run)
    ensures |Ids(mesh)| >= 1
    ensures |run| - 1 <= d * Pow(d + 1, |Ids(mesh)| - 1)
    ensures |run[|run| - 1].delivered| <= d * Pow(d + 1, |Ids(mesh)| - 1)
  {
    OriginMissesAll(mesh, o, acl);
    RunLength(mesh, d, o, acl, run);
    OriginLoad(mesh, d, o, acl, |Ids(mesh)| - 1);
  }

  lemma OriginMissesAll(mesh: Mesh, o: nat, acl: set<string>)
    requires o < |mesh|
    ensures |Ids(mesh)| >= 1 && Missing(mesh, ChainOf(Origin(o, acl))) == |Ids(mesh)|
  {
    assert mesh[o].id in Ids(mesh);
    assert Ids(mesh) - {} == Ids(mesh);
    assert Elements([]) == {};
  }

  lemma OriginLoad(mesh: Mesh, d: nat, o: nat, acl: set<string>, k: nat)
    requires DegreeWithin(mesh, d) && Missing(mesh, ChainOf(Origin(o, acl))) == k + 1
    ensures Load(mesh, d, FanOut(mesh, Origin(o, acl))) <= d * Pow(d + 1, k)
  {
    PowPositive(d + 1, k);
    FanOutLoad(mesh, d, Origin(o, acl), k, Pow(d + 1, k));
  }

  /** A run that is not complete can always go on, so by the bound it reaches completion. */
  lemma {:induction false} CanComplete(mesh: Mesh, d: nat, o: nat, acl: set<string>, run: seq<State>)
    returns (full: seq<State>)
    requires DegreeWithin(mesh, d) && Run(mesh, o, acl, run)
    ensures Run(mesh, o, acl, full) && Complete(full) && run <= full
    decreases Load(mesh, d, run[|run| - 1].inFlight)
  {
    var s := run[|run| - 1];
    if s.inFlight == [] {
      full := run;
    } else {
      StepLightens(mesh, d, s, 0);
      full := CanComplete(mesh, d, o, acl, run + [Deliver(mesh, s, 0)]);
    }
  }
}
