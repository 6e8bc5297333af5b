/** Which routes an event gets through along, and what it carries when it arrives. */
module RelayLaws {
  import opened Wrappers
  import opened Groups
  import opened Codec
  import opened Relay
  import opened RelayRoutes

  // ----- routes -----

  function Init<T>(s: seq<T>): seq<T>
    requires s != []
  {
    s[..|s| - 1]
  }

  function Last<T>(s: seq<T>): T
    requires s != []
  {
    s[|s| - 1]
  }

  /** A route of links that exist, from server `o`. */
  predicate IsPath(mesh: Mesh, o: nat, route: seq<nat>)
    decreases |route|, 0
  {
    o < |mesh| && (route == [] || (IsPath(mesh, o, Init(route)) && Last(route) < |mesh[End(mesh, o, Init(route))].links|
      && mesh[End(mesh, o, Init(route))].links[Last(route)].dest < |mesh|))
  }

  /** The server a route ends at. */
  function End(mesh: Mesh, o: nat, route: seq<nat>): (n: nat)
    requires IsPath(mesh, o, route)
    ensures n < |mesh|
    decreases |route|, 2
  {
    if route == [] then o else LastLink(mesh, o, route).dest
  }

  function LastLink(mesh: Mesh, o: nat, route: seq<nat>): Link
    requires route != [] && IsPath(mesh, o, route)
    decreases |route|, 1
  {
    mesh[End(mesh, o, Init(route))].links[Last(route)]
  }

  function EntryAt(mesh: Mesh, o: nat, route: seq<nat>): Option<Entry>
    requires IsPath(mesh, o, route)
  {
    if route == [] then None else Some(LastLink(mesh, o, route).entry)
  }

  /** The ids of the servers that sent the event on: all but the one it is at. */
  function Senders(mesh: Mesh, o: nat, route: seq<nat>): seq<string>
    requires IsPath(mesh, o, route)
    decreases |route|
  {
    if route == [] then [] else Senders(mesh, o, Init(route)) + [mesh[End(mesh, o, Init(route))].id]
  }

  /** The hop budget as it stands at the end of a route. */
  function Budget(mesh: Mesh, o: nat, route: seq<nat>): int
    requires route != [] && IsPath(mesh, o, route)
    decreases |route|
  {
    ResolveMaxHops(Stamped(mesh, o, route), mesh[End(mesh, o, route)].ceiling)
  }

  /** The budget the message on the last link carries. */
  function Stamped(mesh: Mesh, o: nat, route: seq<nat>): int
    requires route != [] && IsPath(mesh, o, route)
    decreases |route|, 0
  {
    if |route| == 1 then LastLink(mesh, o, route).freshHops else Budget(mesh, o, Init(route))
  }

  /** Nothing but group policy keeps the event off the last link of `route`: the link is not a
      way back, the sender is not in the chain, the budget is not used up, and the envelope can
      be encoded. */
  predicate Sendable(mesh: Mesh, o: nat, route: seq<nat>)
    requires route != [] && IsPath(mesh, o, route)
  {
    var before := Init(route);
    && !Skips(LastLink(mesh, o, route), Last(route), EntryAt(mesh, o, before))
    && mesh[End(mesh, o, before)].id !in Senders(mesh, o, before)
    && (before != [] ==> Budget(mesh, o, before) == UNLIMITED || |before| < Budget(mesh, o, before))
    && |route| <= INT32_MAX && FitsInt32(Stamped(mesh, o, route))
  }

  /** And the receiver lets the event's type in. */
  predicate Open(mesh: Mesh, o: nat, route: seq<nat>)
    requires route != [] && IsPath(mesh, o, route)
  {
    Sendable(mesh, o, route) && mesh[End(mesh, o, route)].admitsType
  }

  /** Every link of the route is open. */
  predicate Clear(mesh: Mesh, o: nat, route: seq<nat>)
    decreases |route|
  {
    IsPath(mesh, o, route) && (route != [] ==> Clear(mesh, o, Init(route)) && Open(mesh, o, route))
  }

  /** A group sent over a link as `g` comes out as local group `h` on the other side. */
  predicate Passes(mesh: Mesh, o: nat, route: seq<nat>, g: string, h: string)
    requires route != [] && IsPath(mesh, o, route)
  {
    var link := LastLink(mesh, o, route);
    var remote := Outbound(mesh[End(mesh, o, Init(route))].tables, link.key, g);
    remote.Some? && Inbound(mesh[link.dest].tables, link.entry.key, remote.value) == Some(h)
  }

  /** The image of the origin's groups under every link's two mappings in turn. */
  function Image(mesh: Mesh, o: nat, acl: set<string>, route: seq<nat>): set<string>
    requires IsPath(mesh, o, route)
    decreases |route|
  {
    if route == [] then acl
    else
      var link := LastLink(mesh, o, route);
      set r | r in Shared(mesh[End(mesh, o, Init(route))].tables, link.key, Image(mesh, o, acl, Init(route)))
              && Inbound(mesh[link.dest].tables, link.entry.key, r).Some?
        :: Inbound(mesh[link.dest].tables, link.entry.key, r).value
  }

  // ----- following a route -----

  /** What is held at the end of a route, if anything. */
  ghost function Expected(mesh: Mesh, o: nat, acl: set<string>, route: seq<nat>): Held
    requires IsPath(mesh, o, route)
  {
    Held(End(mesh, o, route), EntryAt(mesh, o, route),
         if route == [] then None else Some(FedMeta(Senders(mesh, o, route), |route|, Budget(mesh, o, route), None)),
         Image(mesh, o, acl, route), route)
  }

  lemma {:induction false} FollowSnoc(mesh: Mesh, held: Held, route: seq<nat>, j: nat)
    ensures Follow(mesh, held, route + [j])
      == match Follow(mesh, held, route)
         case None => None
         case Some(h) => match Send(mesh, h, j)
           case None => None
           case Some(m) => Receive(mesh, m)
    decreases |route|
  {
    var whole := route + [j];
    if route == [] {
      assert whole[1..] == [];
    } else {
      assert whole[0] == route[0] && whole[1..] == route[1..] + [j];
      if Send(mesh, held, route[0]).Some? {
        var m := Send(mesh, held, route[0]).value;
        if Receive(mesh, m).Some? {
          FollowSnoc(mesh, Receive(mesh, m).value, route[1..], j);
        }
      }
    }
  }

  /** What the last link of `route` carries, when nothing stops it before the receiver. */
  ghost function Carried(mesh: Mesh, o: nat, acl: set<string>, route: seq<nat>): Msg
    requires route != [] && IsPath(mesh, o, route)
  {
    var before, link := Init(route), LastLink(mesh, o, route);
    var node := mesh[End(mesh, o, before)];
    Msg(link.dest, link.entry, FedMeta(Senders(mesh, o, route), |route|, Stamped(mesh, o, route), None),
        Shared(node.tables, link.key, Image(mesh, o, acl, before)), route)
  }

  lemma SendExact(mesh: Mesh, o: nat, acl: set<string>, route: seq<nat>)
    requires Wired(mesh) && route != [] && IsPath(mesh, o, route)
    requires Image(mesh, o, acl, Init(route)) != {}
    ensures Send(mesh, Expected(mesh, o, acl, Init(route)), Last(route))
      == if Sendable(mesh, o, route) && Carried(mesh, o, acl, route).groups != {}
        then Some(Carried(mesh, o, acl, route)) else None
  {
    var before := Init(route);
    assert route == before + [Last(route)];
    assert LastLink(mesh, o, route).key != "";
    AdvancedExact(mesh, o, acl, route);
    SendFitting(mesh, Expected(mesh, o, acl, before), Last(route), |route|);
  }

  /** What is sent, when the envelope's numbers are known. */
  lemma SendFitting(mesh: Mesh, held: Held, j: nat, hops: nat)
    requires OnLink(mesh, held, j) && mesh[held.at].links[j].key != "" && held.acl != {}
    requires var node, link := mesh[held.at], mesh[held.at].links[j];
      Advanced(held.meta, node.id, link.freshHops).currentHops == hops
    requires held.meta.Some? ==> held.meta.value.groupLimits.None?
    ensures var node, link := mesh[held.at], mesh[held.at].links[j];
      var next := Advanced(held.meta, node.id, link.freshHops);
      var groups := Shared(node.tables, link.key, held.acl);
      Send(mesh, held, j) ==
        if !Skips(link, j, held.entry) && groups != {} && MayPass(held.meta, node.id) && hops <= INT32_MAX
          && FitsInt32(next.maxHops)
        then Some(Msg(link.dest, link.entry, next, groups, held.route + [j])) else None
  {}

  lemma AdvancedExact(mesh: Mesh, o: nat, acl: set<string>, route: seq<nat>)
    requires route != [] && IsPath(mesh, o, route)
    ensures var held := Expected(mesh, o, acl, Init(route));
      && OnLink(mesh, held, Last(route)) && mesh[held.at].links[Last(route)] == LastLink(mesh, o, route)
      && Advanced(held.meta, mesh[held.at].id, LastLink(mesh, o, route).freshHops) == Carried(mesh, o, acl, route).meta
  {
    var held := Expected(mesh, o, acl, Init(route));
    var next := Advanced(held.meta, mesh[held.at].id, LastLink(mesh, o, route).freshHops);
    assert next.chain == Senders(mesh, o, route);
    assert next.maxHops == Stamped(mesh, o, route) && next.currentHops == |route|;
  }

  lemma ReceiveExact(mesh: Mesh, o: nat, acl: set<string>, route: seq<nat>)
    requires route != [] && IsPath(mesh, o, route) && Carried(mesh, o, acl, route).groups != {}
    ensures Receive(mesh, Carried(mesh, o, acl, route))
      == if mesh[End(mesh, o, route)].admitsType && Image(mesh, o, acl, route) != {}
        then Some(Expected(mesh, o, acl, route)) else None
  {}

  /** One more link, from the event as expected at the end of a clear route. */
  lemma HopExact(mesh: Mesh, o: nat, acl: set<string>, route: seq<nat>)
    requires Wired(mesh) && route != [] && IsPath(mesh, o, route)
    requires Image(mesh, o, acl, Init(route)) != {}
    ensures var sent := Send(mesh, Expected(mesh, o, acl, Init(route)), Last(route));
      (match sent case None => None case Some(m) => Receive(mesh, m))
      == if Open(mesh, o, route) && Image(mesh, o, acl, route) != {} then Some(Expected(mesh, o, acl, route)) else None
  {
    SendExact(mesh, o, acl, route);
    if Carried(mesh, o, acl, route).groups == {} {
      assert Image(mesh, o, acl, route) == {};
    } else {
      ReceiveExact(mesh, o, acl, route);
    }
  }

  /** An event gets through along a route exactly when every link is open and the composed
      image of its groups is not empty; it then arrives with that image as its local groups,
      the senders in order as its chain, one hop counted per link, and the clamped budget. */
  lemma {:induction false} RouteExact(mesh: Mesh, o: nat, acl: set<string>, route: seq<nat>)
    requires Wired(mesh) && o < |mesh| && acl != {}
    ensures Follow(mesh, Origin(o, acl), route)
      == if Clear(mesh, o, route) && Image(mesh, o, acl, route) != {} then Some(Expected(mesh, o, acl, route)) else None
    decreases |route|
  {
    if route != [] {
      var before := Init(route);
      assert route == before + [Last(route)];
      RouteExact(mesh, o, acl, before);
      FollowSnoc(mesh, Origin(o, acl), before, Last(route));
      if Clear(mesh, o, before) && Image(mesh, o, acl, before) != {} {
        if IsPath(mesh, o, route) {
          HopExact(mesh, o, acl, route);
        } else {
          assert Send(mesh, Expected(mesh, o, acl, before), Last(route)).None?;
        }
      } else if Clear(mesh, o, route) {
        assert Image(mesh, o, acl, route) == {};
      }
    }
  }

  // ----- groups -----

  /** A sequence of groups, one per server of the route, each passing to the next. */
  ghost predicate Threads(mesh: Mesh, o: nat, route: seq<nat>, groups: seq<string>)
    requires IsPath(mesh, o, route)
    decreases |route|
  {
    |groups| == |route| + 1
    && (route != [] ==>
        && Threads(mesh, o, Init(route), Init(groups))
        && Passes(mesh, o, route, groups[|route| - 1], groups[|route|]))
  }

  ghost predicate Traced(mesh: Mesh, o: nat, acl: set<string>, route: seq<nat>, h: string)
    requires IsPath(mesh, o, route)
  {
    exists groups :: Threads(mesh, o, route, groups) && groups[0] in acl && groups[|route|] == h
  }

  lemma TraceExtends(mesh: Mesh, o: nat, acl: set<string>, route: seq<nat>, g: string, h: string)
    requires IsPath(mesh, o, route) && route != []
    requires Traced(mesh, o, acl, Init(route), g) && Passes(mesh, o, route, g, h)
    ensures Traced(mesh, o, acl, route, h)
  {
    var before := Init(route);
    var groups :| Threads(mesh, o, before, groups) && groups[0] in acl && groups[|before|] == g;
    var longer := groups + [h];
    assert Init(longer) == groups;
    assert Threads(mesh, o, route, longer) && longer[0] in acl && longer[|route|] == h;
  }

  lemma TraceShortens(mesh: Mesh, o: nat, acl: set<string>, route: seq<nat>, h: string) returns (g: string)
    requires IsPath(mesh, o, route) && route != [] && Traced(mesh, o, acl, route, h)
    ensures Traced(mesh, o, acl, Init(route), g) && Passes(mesh, o, route, g, h)
  {
    var before := Init(route);
    var groups :| Threads(mesh, o, route, groups) && groups[0] in acl && groups[|route|] == h;
    g := groups[|before|];
    assert Init(groups)[0] in acl && Init(groups)[|before|] == g;
  }

  /** A group is attached at the end of a route exactly when it can be traced back, mapping by
      mapping, to one of the origin's groups. */
  lemma {:induction false} ImageIsTraceable(mesh: Mesh, o: nat, acl: set<string>, route: seq<nat>, h: string)
    requires IsPath(mesh, o, route)
    ensures h in Image(mesh, o, acl, route)
      <==> exists groups :: Threads(mesh, o, route, groups) && groups[0] in acl && groups[|route|] == h
    decreases |route|
  {
    if route == [] {
      if h in acl {
        assert Threads(mesh, o, route, [h]) && [h][0] == h;
      }
    } else {
      var before := Init(route);
      if h in Image(mesh, o, acl, route) {
        var g :| g in Image(mesh, o, acl, before) && Passes(mesh, o, route, g, h);
        ImageIsTraceable(mesh, o, acl, before, g);
        TraceExtends(mesh, o, acl, route, g, h);
      }
      if Traced(mesh, o, acl, route, h) {
        var g := TraceShortens(mesh, o, acl, route, h);
        ImageIsTraceable(mesh, o, acl, before, g);
        var remote := Outbound(mesh[End(mesh, o, before)].tables, LastLink(mesh, o, route).key, g);
        assert remote.value in Shared(mesh[End(mesh, o, before)].tables, LastLink(mesh, o, route).key,
                                      Image(mesh, o, acl, before));
      }
    }
  }

  /** More groups at the origin never means fewer arrivals, nor fewer groups on arrival. */
  lemma {:induction false} ImageMonotone(mesh: Mesh, o: nat, acl: set<string>, more: set<string>, route: seq<nat>)
    requires IsPath(mesh, o, route) && acl <= more
    ensures Image(mesh, o, acl, route) <= Image(mesh, o, more, route)
    decreases |route|
  {
    if route != [] {
      ImageMonotone(mesh, o, acl, more, Init(route));
    }
  }

  lemma ArrivalsMonotone(mesh: Mesh, o: nat, acl: set<string>, more: set<string>, route: seq<nat>)
    requires Wired(mesh) && o < |mesh| && {} != acl <= more
    requires Follow(mesh, Origin(o, acl), route).Some?
    ensures Follow(mesh, Origin(o, more), route).Some?
    ensures Follow(mesh, Origin(o, acl), route).value.acl <= Follow(mesh, Origin(o, more), route).value.acl
  {
    RouteExact(mesh, o, acl, route);
    RouteExact(mesh, o, more, route);
    ImageMonotone(mesh, o, acl, more, route);
  }

  // ----- loops and hops -----

  predicate NoRepeats(s: seq<string>) {
    forall i, j | 0 <= i < j < |s| :: s[i] != s[j]
  }

  lemma {:induction false} ClearNeverRepeats(mesh: Mesh, o: nat, route: seq<nat>)
    requires Clear(mesh, o, route)
    ensures |Senders(mesh, o, route)| == |route| && NoRepeats(Senders(mesh, o, route))
    decreases |route|
  {
    if route != [] {
      ClearNeverRepeats(mesh, o, Init(route));
    }
  }

  /** The hop budget as the links and ceilings declare it: what the origin stamped, then each
      server's ceiling up to the one at the end. */
  function Declared(mesh: Mesh, o: nat, route: seq<nat>): seq<int>
    requires route != [] && IsPath(mesh, o, route)
    decreases |route|
  {
    (if |route| == 1 then [LastLink(mesh, o, route).freshHops] else Declared(mesh, o, Init(route)))
    + [mesh[End(mesh, o, route)].ceiling]
  }

  /** The effective budget of a list of declarations: within every positive one, equal to one
      of them, and, when none is positive, the last. */
  predicate Effective(declared: seq<int>, budget: int)
    requires declared != []
  {
    && (forall i | 0 <= i < |declared| && declared[i] > 0 :: 0 < budget <= declared[i])
    && budget in declared
    && ((forall i | 0 <= i < |declared| :: declared[i] <= 0) ==> budget == Last(declared))
  }

  lemma ResolveEffective(declared: seq<int>, budget: int, ceiling: int)
    requires declared != [] && Effective(declared, budget)
    ensures Effective(declared + [ceiling], ResolveMaxHops(budget, ceiling))
  {}

  lemma {:induction false} BudgetEffective(mesh: Mesh, o: nat, route: seq<nat>)
    requires route != [] && IsPath(mesh, o, route)
    ensures Effective(Declared(mesh, o, route), Budget(mesh, o, route))
    ensures |Declared(mesh, o, route)| == |route| + 1
    decreases |route|
  {
    if |route| == 1 {
      var stamp := LastLink(mesh, o, route).freshHops;
      assert Effective([stamp], stamp);
      ResolveEffective([stamp], stamp, mesh[End(mesh, o, route)].ceiling);
    } else {
      BudgetEffective(mesh, o, Init(route));
      ResolveEffective(Declared(mesh, o, Init(route)), Budget(mesh, o, Init(route)), mesh[End(mesh, o, route)].ceiling);
    }
  }

  /** The server at the end of a route is free to relay, as far as hops go, exactly when the
      number of links taken is below every positive declaration, and, where no declaration is
      positive, its own ceiling is "unlimited". */
  lemma RelayHopsExact(mesh: Mesh, o: nat, route: seq<nat>)
    requires route != [] && IsPath(mesh, o, route)
    ensures (Budget(mesh, o, route) == UNLIMITED || |route| < Budget(mesh, o, route))
      <==> (var declared := Declared(mesh, o, route);
            && (forall i | 0 <= i < |declared| && declared[i] > 0 :: |route| < declared[i])
            && ((forall i | 0 <= i < |declared| :: declared[i] <= 0) ==> Last(declared) == UNLIMITED))
  {
    BudgetEffective(mesh, o, route);
    var declared, b := Declared(mesh, o, route), Budget(mesh, o, route);
    var k :| 0 <= k < |declared| && declared[k] == b;
    if exists i :: 0 <= i < |declared| && declared[i] > 0 {
      var i :| 0 <= i < |declared| && declared[i] > 0;
      assert b > 0;
    } else {
      assert b == Last(declared) && b <= 0;
    }
  }

  /** Ceilings bound how far an event travels: a route of two links or more that gets through
      has no more links than any positive ceiling on it, the last server's aside, and than a
      positive budget stamped at the origin. So ceilings of `c` mean at most c + 1 servers. */
  lemma HopCeiling(mesh: Mesh, o: nat, route: seq<nat>)
    requires Clear(mesh, o, route) && |route| >= 2
    ensures forall d | d in Declared(mesh, o, Init(route)) && d > 0 :: |route| <= d
  {
    RelayHopsExact(mesh, o, Init(route));
    forall d | d in Declared(mesh, o, Init(route)) && d > 0 ensures |route| <= d {
      var i :| 0 <= i < |Declared(mesh, o, Init(route))| && Declared(mesh, o, Init(route))[i] == d;
    }
  }

  /** The ceiling of every server that had to relay is among the declarations. */
  lemma {:induction false} CeilingDeclared(mesh: Mesh, o: nat, route: seq<nat>, k: nat)
    requires route != [] && IsPath(mesh, o, route) && 1 <= k <= |route|
    ensures IsPath(mesh, o, route[..k])
    ensures mesh[End(mesh, o, route[..k])].ceiling in Declared(mesh, o, route)
    decreases |route|
  {
    if k == |route| {
      assert route[..k] == route;
      assert Declared(mesh, o, route)[|Declared(mesh, o, route)| - 1] == mesh[End(mesh, o, route)].ceiling;
    } else {
      CeilingDeclared(mesh, o, Init(route), k);
      assert Init(route)[..k] == route[..k];
      var d := mesh[End(mesh, o, route[..k])].ceiling;
      var i :| 0 <= i < |Declared(mesh, o, Init(route))| && Declared(mesh, o, Init(route))[i] == d;
      assert Declared(mesh, o, route)[i] == d;
    }
  }

  /** The server after `k` links has a ceiling within 1 and `c`. */
  predicate CeilingWithin(mesh: Mesh, o: nat, route: seq<nat>, k: nat, c: int)
    requires k <= |route|
  {
    IsPath(mesh, o, route[..k]) && 0 < mesh[End(mesh, o, route[..k])].ceiling <= c
  }

  lemma CeilingBounds(mesh: Mesh, o: nat, route: seq<nat>, k: nat, c: int)
    requires Clear(mesh, o, route) && 1 <= k < |route| && CeilingWithin(mesh, o, route, k, c)
    ensures |route| <= c
  {
    assert Init(route)[..k] == route[..k];
    CeilingDeclared(mesh, o, Init(route), k);
    HopCeiling(mesh, o, route);
  }

  /** Ceilings of `c` mean that an event visits at most `c + 1` servers: so it is on every route it
      gets through along, whatever was stamped at the origin and whatever the other ceilings are,
      as soon as one server it was relayed by, the origin aside, has a ceiling within 1 and `c`. */
  lemma {:induction false} ServersVisited(mesh: Mesh, o: nat, acl: set<string>, route: seq<nat>, k: nat, c: int)
    requires Wired(mesh) && o < |mesh| && acl != {} && c >= 1
    requires Follow(mesh, Origin(o, acl), route).Some?
    requires |route| >= 2 ==> 1 <= k < |route| && CeilingWithin(mesh, o, route, k, c)
    ensures |route| + 1 <= c + 1
  {
    RouteExact(mesh, o, acl, route);
    if |route| >= 2 {
      CeilingBounds(mesh, o, route, k, c);
    }
  }

  // ----- every reachable state -----

  /** Message `m` is what the last link of its route carries. */
  ghost predicate Routed(mesh: Mesh, o: nat, acl: set<string>, m: Msg) {
    && m.route != []
    && Follow(mesh, Origin(o, acl), Init(m.route)).Some?
    && Send(mesh, Follow(mesh, Origin(o, acl), Init(m.route)).value, Last(m.route)) == Some(m)
  }

  ghost predicate AllRouted(mesh: Mesh, o: nat, acl: set<string>, s: State) {
    forall i | 0 <= i < |s.inFlight| :: Routed(mesh, o, acl, s.inFlight[i])
  }

  lemma {:induction false} EmitRouted(mesh: Mesh, o: nat, acl: set<string>, held: Held, n: nat)
    requires Follow(mesh, Origin(o, acl), held.route) == Some(held)
    ensures forall i | 0 <= i < |Emit(mesh, held, n)| :: Routed(mesh, o, acl, Emit(mesh, held, n)[i])
  {
    if n > 0 {
      EmitRouted(mesh, o, acl, held, n - 1);
      if Send(mesh, held, n - 1).Some? {
        SendChain(mesh, held, n - 1);
        var m := Send(mesh, held, n - 1).value;
        assert Init(m.route) == held.route;
      }
    }
  }

  lemma StepRouted(mesh: Mesh, o: nat, acl: set<string>, s: State, i: nat)
    requires i < |s.inFlight| && AllRouted(mesh, o, acl, s)
    ensures AllRouted(mesh, o, acl, Deliver(mesh, s, i))
  {
    var m := s.inFlight[i];
    assert Routed(mesh, o, acl, m);
    if Receive(mesh, m).Some? {
      var held := Receive(mesh, m).value;
      FollowSnoc(mesh, Origin(o, acl), Init(m.route), Last(m.route));
      assert Init(m.route) + [Last(m.route)] == m.route;
      EmitRouted(mesh, o, acl, held, Links(mesh, held.at));
    }
  }

  lemma StartRouted(mesh: Mesh, o: nat, acl: set<string>)
    ensures AllRouted(mesh, o, acl, Start(mesh, o, acl))
  {
    EmitRouted(mesh, o, acl, Origin(o, acl), Links(mesh, o));
  }

  lemma {:induction false} RunRouted(mesh: Mesh, o: nat, acl: set<string>, run: seq<State>)
    requires Run(mesh, o, acl, run)
    ensures AllRouted(mesh, o, acl, run[|run| - 1])
  {
    if |run| == 1 {
      StartRouted(mesh, o, acl);
    } else {
      var init := run[..|run| - 1];
      RunRouted(mesh, o, acl, init);
      assert init[|init| - 1] == run[|run| - 2];
      var s, s' := run[|run| - 2], run[|run| - 1];
      var i :| 0 <= i < |s.inFlight| && s' == Deliver(mesh, s, i);
      StepRouted(mesh, o, acl, s, i);
    }
  }

  /** Hop law, in every state of every run: a message's hop count is the length of its chain
      and of its route, no id occurs twice in its chain, and a positive budget is never
      exceeded on the wire. */
  lemma HopLaw(mesh: Mesh, o: nat, acl: set<string>, run: seq<State>, i: nat)
    requires Wired(mesh) && o < |mesh| && acl != {} && Run(mesh, o, acl, run)
    requires i < |run[|run| - 1].inFlight|
    ensures var m := run[|run| - 1].inFlight[i];
      && m.meta.currentHops == |m.meta.chain| == |m.route|
      && NoRepeats(m.meta.chain)
      && (m.meta.maxHops > 0 ==> m.meta.currentHops <= m.meta.maxHops)
      && m.meta.groupLimits.None? && m.groups != {}
  {
    RunRouted(mesh, o, acl, run);
    var m := run[|run| - 1].inFlight[i];
    assert Routed(mesh, o, acl, m);
    var before := Init(m.route);
    RouteExact(mesh, o, acl, before);
    ClearNeverRepeats(mesh, o, before);
    SendChain(mesh, Expected(mesh, o, acl, before), Last(m.route));
    SentEnvelope(mesh, o, acl, before, Last(m.route));
  }

  lemma SentEnvelope(mesh: Mesh, o: nat, acl: set<string>, before: seq<nat>, j: nat)
    requires Wired(mesh) && IsPath(mesh, o, before)
    requires Send(mesh, Expected(mesh, o, acl, before), j).Some?
    ensures var m := Send(mesh, Expected(mesh, o, acl, before), j).value;
      && m.meta.currentHops == |before| + 1 && m.meta.groupLimits.None? && m.groups != {}
      && (m.meta.maxHops > 0 ==> m.meta.currentHops <= m.meta.maxHops)
  {}
}
