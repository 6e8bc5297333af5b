/** What a flood delivers: the same multiset whatever the order of delivery, exactly one
    delivery per route that gets through, and which routes those are. */
module RelayRoutes {
  import opened Wrappers
  import opened Relay

  // ----- every schedule delivers the same -----

  /** Everything delivered because of message `m`. */
  ghost function Delivers(mesh: Mesh, m: Msg): multiset<Held>
    decreases Missing(mesh, m.meta.chain), 1, 0
  {
    match Receive(mesh, m)
    case None => multiset{}
    case Some(held) => multiset{held} + Downstream(mesh, held, Links(mesh, held.at))
  }

  /** Everything delivered because a server holds an event and fans it out on `n` links. */
  ghost function Downstream(mesh: Mesh, held: Held, n: nat): multiset<Held>
    decreases Missing(mesh, ChainOf(held)), 0, n
  {
    if n == 0 then multiset{}
    else if Send(mesh, held, n - 1).None? then Downstream(mesh, held, n - 1)
    else
      SendCoversOneMore(mesh, held, n - 1);
      Downstream(mesh, held, n - 1) + Delivers(mesh, Send(mesh, held, n - 1).value)
  }

  ghost function Pending(mesh: Mesh, ms: seq<Msg>): multiset<Held> {
    if ms == [] then multiset{} else Pending(mesh, ms[..|ms| - 1]) + Delivers(mesh, ms[|ms| - 1])
  }

  lemma PendingSnoc(mesh: Mesh, ms: seq<Msg>, m: Msg)
    ensures Pending(mesh, ms + [m]) == Pending(mesh, ms) + Delivers(mesh, m)
  {}

  lemma ConcatLast<T>(a: seq<T>, b: seq<T>)
    requires b != []
    ensures a + b == (a + b[..|b| - 1]) + [b[|b| - 1]]
  {}

  lemma SumAssociates<T>(x: multiset<T>, y: multiset<T>, z: multiset<T>)
    ensures (x + y) + z == x + (y + z)
  {}

  lemma {:induction false} PendingConcat(mesh: Mesh, a: seq<Msg>, b: seq<Msg>)
    ensures Pending(mesh, a + b) == Pending(mesh, a) + Pending(mesh, b)
  {
    if b == [] {
      assert a + b == a;
    } else {
      var init, m := b[..|b| - 1], b[|b| - 1];
      PendingConcat(mesh, a, init);
      ConcatLast(a, b);
      PendingSnoc(mesh, a + init, m);
      SumAssociates(Pending(mesh, a), Pending(mesh, init), Delivers(mesh, m));
    }
  }

  lemma PendingOne(mesh: Mesh, m: Msg)
    ensures Pending(mesh, [m]) == Delivers(mesh, m)
  {}

  lemma {:induction false} PendingEmit(mesh: Mesh, held: Held, n: nat)
    ensures Pending(mesh, Emit(mesh, held, n)) == Downstream(mesh, held, n)
  {
    if n > 0 {
      PendingEmit(mesh, held, n - 1);
      match Send(mesh, held, n - 1)
      case None =>
      case Some(m) =>
        PendingConcat(mesh, Emit(mesh, held, n - 1), [m]);
        PendingOne(mesh, m);
    }
  }

  /** What has been delivered and what is still pending never changes in total. */
  lemma StepConserves(mesh: Mesh, s: State, i: nat)
    requires i < |s.inFlight|
    ensures var s' := Deliver(mesh, s, i);
      s'.delivered + Pending(mesh, s'.inFlight) == s.delivered + Pending(mesh, s.inFlight)
  {
    var m, a, b := s.inFlight[i], s.inFlight[..i], s.inFlight[i + 1..];
    assert s.inFlight == a + [m] + b;
    PendingConcat(mesh, a + [m], b);
    PendingConcat(mesh, a, [m]);
    PendingOne(mesh, m);
    PendingConcat(mesh, a, b);
    if Receive(mesh, m).Some? {
      var held := Receive(mesh, m).value;
      PendingConcat(mesh, a + b, FanOut(mesh, held));
      PendingEmit(mesh, held, Links(mesh, held.at));
    }
  }

  ghost function Total(mesh: Mesh, s: State): multiset<Held> {
    s.delivered + Pending(mesh, s.inFlight)
  }

  lemma RelatedConserve(mesh: Mesh, s: State, s': State)
    requires Step(mesh, s, s')
    ensures Total(mesh, s') == Total(mesh, s)
  {
    var i :| 0 <= i < |s.inFlight| && s' == Deliver(mesh, s, i);
    StepConserves(mesh, s, i);
  }

  lemma RunPrefix(mesh: Mesh, o: nat, acl: set<string>, run: seq<State>)
    requires Run(mesh, o, acl, run) && |run| > 1
    ensures Run(mesh, o, acl, run[..|run| - 1]) && Step(mesh, run[|run| - 2], run[|run| - 1])
  {}

  lemma {:induction false} RunConserves(mesh: Mesh, o: nat, acl: set<string>, run: seq<State>)
    requires Run(mesh, o, acl, run)
    ensures Total(mesh, run[|run| - 1]) == Downstream(mesh, Origin(o, acl), Links(mesh, o))
  {
    if |run| == 1 {
      PendingEmit(mesh, Origin(o, acl), Links(mesh, o));
    } else {
      RunPrefix(mesh, o, acl, run);
      RunConserves(mesh, o, acl, run[..|run| - 1]);
      RelatedConserve(mesh, run[|run| - 2], run[|run| - 1]);
    }
  }

  /** The order in which messages happen to arrive does not matter: any two complete floods of
      the same event deliver the same events to the same servers, equally often. */
  lemma ScheduleIndependent(mesh: Mesh, o: nat, acl: set<string>, run: seq<State>, run': seq<State>)
    requires Run(mesh, o, acl, run) && Complete(run)
    requires Run(mesh, o, acl, run') && Complete(run')
    ensures run[|run| - 1].delivered == run'[|run'| - 1].delivered
  {
    RunConserves(mesh, o, acl, run);
    RunConserves(mesh, o, acl, run');
    forall s: State | s.inFlight == [] ensures s.delivered + Pending(mesh, s.inFlight) == s.delivered {
      assert Pending(mesh, []) == multiset{};
    }
  }

  // ----- one delivery per route -----

  /** The event as held after following the links of `route`, if it gets that far. */
  ghost function Follow(mesh: Mesh, held: Held, route: seq<nat>): Option<Held>
    decreases |route|
  {
    if route == [] then Some(held)
    else match Send(mesh, held, route[0])
      case None => None
      case Some(m) => match Receive(mesh, m)
        case None => None
        case Some(next) => Follow(mesh, next, route[1..])
  }

  /** `a` is what following its own route on from `held` yields, starting on a link below `n`. */
  ghost predicate Reaches(mesh: Mesh, held: Held, a: Held, n: nat) {
    && held.route < a.route && a.route[|held.route|] < n
    && Follow(mesh, held, a.route[|held.route|..]) == Some(a)
  }

  ghost predicate Yields(mesh: Mesh, m: Msg, a: Held) {
    && m.route <= a.route && Receive(mesh, m).Some?
    && Follow(mesh, Receive(mesh, m).value, a.route[|m.route|..]) == Some(a)
  }

  lemma {:induction false} DeliversOnce(mesh: Mesh, m: Msg, a: Held)
    ensures Delivers(mesh, m)[a] == if Yields(mesh, m, a) then 1 else 0
    decreases Missing(mesh, m.meta.chain), 1, 0
  {
    if Receive(mesh, m).Some? {
      var held := Receive(mesh, m).value;
      assert held.route == m.route;
      DownstreamOnce(mesh, held, a, Links(mesh, held.at));
      var rest := if m.route <= a.route then a.route[|m.route|..] else [];
      if m.route <= a.route && rest != [] {
        assert a.route != m.route && held != a;
        assert a.route[|m.route|] == rest[0];
        if rest[0] >= Links(mesh, held.at) {
          assert Send(mesh, held, rest[0]).None?;
        }
      } else if m.route <= a.route {
        assert a.route == m.route;
      }
    }
  }

  lemma {:induction false} DownstreamOnce(mesh: Mesh, held: Held, a: Held, n: nat)
    ensures Downstream(mesh, held, n)[a] == if Reaches(mesh, held, a, n) then 1 else 0
    decreases Missing(mesh, ChainOf(held)), 0, n
  {
    if n > 0 {
      DownstreamOnce(mesh, held, a, n - 1);
      if Send(mesh, held, n - 1).Some? {
        var m := Send(mesh, held, n - 1).value;
        SendCoversOneMore(mesh, held, n - 1);
        SendChain(mesh, held, n - 1);
        DeliversOnce(mesh, m, a);
        YieldsIsReaches(mesh, held, n - 1, a);
      } else if held.route < a.route && a.route[|held.route|] == n - 1 {
        assert a.route[|held.route|..][0] == n - 1;
      }
    }
  }

  lemma YieldsIsReaches(mesh: Mesh, held: Held, j: nat, a: Held)
    requires Send(mesh, held, j).Some?
    ensures Yields(mesh, Send(mesh, held, j).value, a)
      <==> Reaches(mesh, held, a, j + 1) && a.route[|held.route|] == j
  {}

  /** A complete flood delivers an event exactly once for each route along which it gets
      through, and nothing else. */
  lemma FloodDeliversEachRouteOnce(mesh: Mesh, o: nat, acl: set<string>, run: seq<State>, a: Held)
    requires Run(mesh, o, acl, run) && Complete(run)
    ensures run[|run| - 1].delivered[a]
      == if a.route != [] && Follow(mesh, Origin(o, acl), a.route) == Some(a) then 1 else 0
  {
    RunConserves(mesh, o, acl, run);
    DownstreamOnce(mesh, Origin(o, acl), a, Links(mesh, o));
    assert a.route[0..] == a.route;
    if a.route != [] && a.route[0] >= Links(mesh, o) {
      assert Send(mesh, Origin(o, acl), a.route[0]).None?;
    }
  }
}
