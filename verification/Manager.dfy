/** The manager: the links it holds, and the fan-out of one event over them. */
module Manager {
  import opened Wrappers
  import opened Groups
  import opened Codec
  import opened Bridge
  import opened Client
  import opened PeerLink
  import PeerPolicy

  // ----- the table of inbound links -----

  /** The links filed under a peer id, in the order they were registered. */
  function Row<L>(table: map<string, seq<L>>, peer: string): seq<L> {
    if peer in table then table[peer] else []
  }

  function RemoveFirst<L(==)>(links: seq<L>, link: L): seq<L> {
    if links == [] then []
    else if links[0] == link then links[1..]
    else [links[0]] + RemoveFirst(links[1..], link)
  }

  function Registered<L>(table: map<string, seq<L>>, peer: string, link: L): map<string, seq<L>> {
    table[peer := Row(table, peer) + [link]]
  }

  /** A peer with no link left has no row. */
  function Deregistered<L(==)>(table: map<string, seq<L>>, peer: string, link: L): map<string, seq<L>> {
    if link !in Row(table, peer) then table
    else
      var rest := RemoveFirst(Row(table, peer), link);
      if rest == [] then table - {peer} else table[peer := rest]
  }

  lemma CountBack<L>(x: L, m: multiset<L>)
    ensures multiset{x} + m - multiset{x} == m
  {}

  lemma CountPast<L>(x: L, m: multiset<L>, y: L)
    requires x != y
    ensures multiset{x} + (m - multiset{y}) == multiset{x} + m - multiset{y}
  {}

  lemma {:induction false} RemoveFirstCounts<L>(links: seq<L>, link: L)
    ensures multiset(RemoveFirst(links, link)) == multiset(links) - multiset{link}
  {
    if links != [] {
      var first, rest := links[0], links[1..];
      assert links == [first] + rest;
      if first == link {
        CountBack(first, multiset(rest));
      } else {
        RemoveFirstCounts(rest, link);
        CountPast(first, multiset(rest), link);
      }
    }
  }

  datatype Change<L> = Register(peer: string, link: L) | Deregister(peer: string, link: L)

  function Table<L(==)>(history: seq<Change<L>>): map<string, seq<L>> {
    if history == [] then map[]
    else
      var before := Table(history[..|history| - 1]);
      match history[|history| - 1]
      case Register(peer, link) => Registered(before, peer, link)
      case Deregister(peer, link) => Deregistered(before, peer, link)
  }

  /** How often a link is live under a peer id: each registration adds one, each later
      deregistration takes one away while there is one. */
  function Live<L(==)>(history: seq<Change<L>>, peer: string, link: L): nat {
    if history == [] then 0
    else
      var before := Live(history[..|history| - 1], peer, link);
      var last := history[|history| - 1];
      if last == Register(peer, link) then before + 1
      else if last == Deregister(peer, link) && before > 0 then before - 1
      else before
  }

  lemma RegisteredRow<L>(table: map<string, seq<L>>, peer: string, link: L, other: string)
    ensures var before, after := multiset(Row(table, other)), multiset(Row(Registered(table, peer, link), other));
      after == if other == peer then before + multiset{link} else before
  {}

  lemma DeregisteredRow<L>(table: map<string, seq<L>>, peer: string, link: L, other: string, x: L)
    ensures var before, after := multiset(Row(table, other)), multiset(Row(Deregistered(table, peer, link), other));
      after == if other == peer then before - multiset{link} else before
  {
    RemoveFirstCounts(Row(table, peer), link);
  }

  /** No history leaves an empty row. */
  lemma {:induction false} NoEmptyRow<L>(history: seq<Change<L>>, peer: string)
    ensures peer in Table(history) ==> Table(history)[peer] != []
  {
    if history != [] {
      NoEmptyRow(history[..|history| - 1], peer);
    }
  }

  /** After any history the table holds exactly the live links, as often as they are live. */
  lemma {:induction false} TableHoldsLiveLinks<L>(history: seq<Change<L>>, peer: string, link: L)
    ensures multiset(Row(Table(history), peer))[link] == Live(history, peer, link)
  {
    if history != [] {
      var init, last := history[..|history| - 1], history[|history| - 1];
      TableHoldsLiveLinks(init, peer, link);
      match last
      case Register(p, l) => RegisteredRow(Table(init), p, l, peer);
      case Deregister(p, l) => DeregisteredRow(Table(init), p, l, peer, link);
    }
  }

  /** When every link is gone, so is every row. */
  lemma AllGone<L>(history: seq<Change<L>>, peer: string)
    requires forall link | link in Row(Table(history), peer) :: Live(history, peer, link) == 0
    ensures peer !in Table(history)
  {
    NoEmptyRow(history, peer);
    if peer in Table(history) {
      var link := Table(history)[peer][0];
      TableHoldsLiveLinks(history, peer, link);
    }
  }

  // ----- flattening the table -----

  /** The links a flat list holds under a peer id. */
  function Under<L>(flat: seq<(string, L)>, peer: string): seq<L> {
    if flat == [] then []
    else
      var init, last := Under(flat[..|flat| - 1], peer), flat[|flat| - 1];
      if last.0 == peer then init + [last.1] else init
  }

  /** A flat list holds each row of the table, whole and in order, and nothing else. */
  predicate IsSnapshot<L(==)>(flat: seq<(string, L)>, table: map<string, seq<L>>) {
    && (forall i | 0 <= i < |flat| :: flat[i].0 in table)
    && (forall peer | peer in table :: Under(flat, peer) == table[peer])
  }

  lemma {:induction false} UnderOwn<L>(flat: seq<(string, L)>, i: nat)
    requires i < |flat|
    ensures flat[i].1 in Under(flat, flat[i].0)
  {
    var n := |flat| - 1;
    if i < n {
      UnderOwn(flat[..n], i);
    } else {
      assert Under(flat, flat[n].0)[|Under(flat[..n], flat[n].0)|] == flat[n].1;
    }
  }

  lemma {:induction false} UnderNone<L>(flat: seq<(string, L)>, peer: string)
    requires forall i | 0 <= i < |flat| :: flat[i].0 != peer
    ensures Under(flat, peer) == []
  {
    if flat != [] {
      UnderNone(flat[..|flat| - 1], peer);
    }
  }

  lemma OneFurther<T>(before: seq<T>, s: seq<T>, k: nat)
    requires k < |s|
    ensures before + s[..k] + [s[k]] == before + s[..k + 1]
  {}

  lemma UnderSnoc<L>(flat: seq<(string, L)>, peer: string, link: L, other: string)
    ensures Under(flat + [(peer, link)], other)
      == if peer == other then Under(flat, other) + [link] else Under(flat, other)
  {}

  // ----- fan-out -----

  /** Whether a place in the flat list makes an offer to a link. */
  function Due<L(==)>(place: (string, L), link: L, isSrc: bool, srcPeer: Option<string>): nat {
    if place.1 == link && !isSrc && Some(place.0) != srcPeer then 1 else 0
  }

  /** How often an event from `src`, whose peer is known as `srcPeer`, is offered to a link. */
  function Offers<L(==)>(flat: seq<(string, L)>, link: L, isSrc: bool, srcPeer: Option<string>): nat {
    if flat == [] then 0
    else
      Offers(flat[..|flat| - 1], link, isSrc, srcPeer) + Due(flat[|flat| - 1], link, isSrc, srcPeer)
  }

  lemma OffersSnoc<L>(flat: seq<(string, L)>, last: (string, L), link: L, isSrc: bool, srcPeer: Option<string>)
    ensures Offers(flat + [last], link, isSrc, srcPeer)
      == Offers(flat, link, isSrc, srcPeer) + Due(last, link, isSrc, srcPeer)
  {}

  /** A link filed under one peer id is offered the event as often as it is filed, unless it is
      the source, or its peer is. */
  lemma {:induction false} OfferedAsFiled<L>(flat: seq<(string, L)>, peer: string, link: L, isSrc: bool,
                                             srcPeer: Option<string>)
    requires forall other | other != peer :: link !in Under(flat, other)
    ensures Offers(flat, link, isSrc, srcPeer)
      == if isSrc || srcPeer == Some(peer) then 0 else multiset(Under(flat, peer))[link]
  {
    if flat != [] {
      var init, last := flat[..|flat| - 1], flat[|flat| - 1];
      forall other | other != peer ensures link !in Under(init, other) {
        assert link !in Under(flat, other);
      }
      OfferedAsFiled(init, peer, link, isSrc, srcPeer);
      if last.1 == link {
        assert link in Under(flat, last.0) by {
          assert Under(flat, last.0)[|Under(init, last.0)|] == link;
        }
      }
    }
  }

  /** No row but that of `peer` holds the link. */
  ghost predicate FiledOnlyUnder<L>(table: map<string, seq<L>>, peer: string, link: L) {
    forall other | other != peer :: link !in Row(table, other)
  }

  lemma OfferedAsInTable<L>(flat: seq<(string, L)>, table: map<string, seq<L>>, peer: string, link: L, isSrc: bool,
                            srcPeer: Option<string>)
    requires IsSnapshot(flat, table) && FiledOnlyUnder(table, peer, link)
    ensures Offers(flat, link, isSrc, srcPeer)
      == if isSrc || srcPeer == Some(peer) then 0 else multiset(Row(table, peer))[link]
  {
    forall other ensures Under(flat, other) == Row(table, other) {
      NoKeyNoLinks(flat, table, other);
    }
    OfferedAsFiled(flat, peer, link, isSrc, srcPeer);
  }

  /** Every connection has a link object of its own, registered once at most. */
  predicate RegisteredOnce<L(==)>(history: seq<Change<L>>, link: L) {
    forall i, j | 0 <= i < j < |history| :: !(Registers(history[i], link) && Registers(history[j], link))
  }

  predicate Registers<L(==)>(change: Change<L>, link: L) {
    change.Register? && change.link == link
  }

  /** The link was registered under `peer` and not deregistered since. */
  predicate LiveUnder<L(==)>(history: seq<Change<L>>, peer: string, link: L) {
    exists i | 0 <= i < |history| :: history[i] == Register(peer, link) && NotSince(history, i, peer, link)
  }

  predicate NotSince<L(==)>(history: seq<Change<L>>, i: nat, peer: string, link: L) {
    forall j | i < j < |history| :: history[j] != Deregister(peer, link)
  }

  lemma {:induction false} LiveOnce<L>(history: seq<Change<L>>, peer: string, link: L)
    requires RegisteredOnce(history, link)
    ensures Live(history, peer, link) == if LiveUnder(history, peer, link) then 1 else 0
  {
    if history != [] {
      var n := |history| - 1;
      var init, last := history[..n], history[n];
      LiveOnce(init, peer, link);
      if last == Register(peer, link) {
        assert NotSince(history, n, peer, link) && LiveUnder(history, peer, link);
        forall i | 0 <= i < |init| ensures init[i] != Register(peer, link) {
          assert Registers(history[n], link);
          assert init[i] == history[i] && !Registers(history[i], link);
        }
        assert !LiveUnder(init, peer, link);
      } else {
        LiveUnderSnoc(init, last, peer, link);
        assert history == init + [last];
      }
    }
  }

  lemma LiveUnderSnoc<L>(init: seq<Change<L>>, last: Change<L>, peer: string, link: L)
    requires last != Register(peer, link)
    ensures LiveUnder(init + [last], peer, link) <==> LiveUnder(init, peer, link) && last != Deregister(peer, link)
  {
    var history := init + [last];
    assert history[|init|] == last;
    forall i | 0 <= i < |init|
      ensures history[i] == init[i]
        && (NotSince(history, i, peer, link) <==> NotSince(init, i, peer, link) && last != Deregister(peer, link))
    {
      assert forall j | 0 <= j < |init| :: history[j] == init[j];
    }
  }

  lemma OnePeerAtMost<L>(history: seq<Change<L>>, peer: string, other: string, link: L)
    requires RegisteredOnce(history, link) && LiveUnder(history, peer, link) && LiveUnder(history, other, link)
    ensures peer == other
  {
    var i :| 0 <= i < |history| && history[i] == Register(peer, link) && NotSince(history, i, peer, link);
    var j :| 0 <= j < |history| && history[j] == Register(other, link) && NotSince(history, j, other, link);
    assert Registers(history[i], link) && Registers(history[j], link);
  }

  lemma {:induction false} NoKeyNoLinks<L>(flat: seq<(string, L)>, table: map<string, seq<L>>, peer: string)
    requires forall i | 0 <= i < |flat| :: flat[i].0 in table
    ensures peer !in table ==> Under(flat, peer) == []
  {
    if peer !in table {
      UnderNone(flat, peer);
    }
  }

  /** Exactly once: after any history of connections coming and going, an event is offered once to
      the link of each connection that is there, and not at all to any other; and not to a link
      that is the source or whose peer is. */
  lemma OfferedOnce<L>(history: seq<Change<L>>, flat: seq<(string, L)>, peer: string, link: L, isSrc: bool,
                       srcPeer: Option<string>)
    requires RegisteredOnce(history, link) && IsSnapshot(flat, Table(history))
    ensures LiveUnder(history, peer, link) ==>
      Offers(flat, link, isSrc, srcPeer) == if isSrc || srcPeer == Some(peer) then 0 else 1
    ensures (forall other :: !LiveUnder(history, other, link)) ==> Offers(flat, link, isSrc, srcPeer) == 0
  {
    forall other ensures Under(flat, other) == Row(Table(history), other) {
      NoKeyNoLinks(flat, Table(history), other);
    }
    forall other ensures multiset(Under(flat, other))[link] == if LiveUnder(history, other, link) then 1 else 0 {
      TableHoldsLiveLinks(history, other, link);
      LiveOnce(history, other, link);
    }
    if LiveUnder(history, peer, link) || forall other :: !LiveUnder(history, other, link) {
      forall other | other != peer ensures link !in Under(flat, other) {
        if LiveUnder(history, other, link) && LiveUnder(history, peer, link) {
          OnePeerAtMost(history, peer, other, link);
        }
        assert link in Under(flat, other) <==> link in multiset(Under(flat, other));
      }
      OfferedAsFiled(flat, peer, link, isSrc, srcPeer);
    }
  }

  /** The outcome of offering an event to a link `n` times. */
  ghost predicate AppendsTimes(before: seq<Wire>, after: seq<Wire>, n: nat, evt: Event, nodeId: string, maxHops: int,
                               policy: Option<Tables>, peer: string)
    decreases n
  {
    if n == 0 then after == before
    else exists mid :: AppendsTimes(before, mid, n - 1, evt, nodeId, maxHops, policy, peer)
                       && Appends(mid, after, evt, nodeId, maxHops, policy, peer)
  }

  /** The enabled peer a name stands for: the last one so named. */
  function LastNamed(peers: seq<PeerPolicy.PeerConfig>, name: string): Option<PeerPolicy.PeerConfig> {
    if peers == [] then None
    else
      var last := peers[|peers| - 1];
      if last.enabled && last.name == name then Some(last) else LastNamed(peers[..|peers| - 1], name)
  }

  function PeerNames(peers: seq<PeerPolicy.PeerConfig>): set<string> {
    if peers == [] then {}
    else PeerNames(peers[..|peers| - 1]) + if peers[|peers| - 1].enabled then {peers[|peers| - 1].name} else {}
  }

  /** Peer `i` is the last enabled one of a name. */
  predicate LastEnabled(peers: seq<PeerPolicy.PeerConfig>, name: string, i: int) {
    && 0 <= i < |peers| && peers[i].enabled && peers[i].name == name
    && forall j | i < j < |peers| && peers[j].enabled :: peers[j].name != name
  }

  lemma {:induction false} NamedExactly(peers: seq<PeerPolicy.PeerConfig>, name: string)
    ensures name in PeerNames(peers) <==> exists i :: LastEnabled(peers, name, i)
    ensures forall i | LastEnabled(peers, name, i) :: LastNamed(peers, name) == Some(peers[i])
  {
    if peers != [] {
      var n := |peers| - 1;
      var init, last := peers[..n], peers[n];
      NamedExactly(init, name);
      if last.enabled && last.name == name {
        assert LastEnabled(peers, name, n);
      } else {
        forall i ensures LastEnabled(peers, name, i) <==> LastEnabled(init, name, i) {
          if LastEnabled(init, name, i) {
            assert forall j | i < j < n :: peers[j] == init[j];
          }
        }
      }
    }
  }

  class FederationManager {
    const registry: FederateGroupRegistry
    const bridge: FederationBridge<(object, Event)>
    var clients: map<string, FederateClient>
    var inboundLinks: map<string, seq<InboundPeerLink>>

    /** Every peer has its own client object. */
    ghost predicate Valid()
      reads this
    {
      forall p, q | p in clients && q in clients && clients[p] == clients[q] :: p == q
    }

    function Links(): (all: set<InboundPeerLink>)
      reads this
    {
      set peer, i | peer in inboundLinks && 0 <= i < |inboundLinks[peer]| :: inboundLinks[peer][i]
    }

    /** One client per enabled peer, stamped with that peer's hop budget and our own ceiling. */
    constructor (config: PeerPolicy.Config, serverId: string, maxHops: int, allowFederatedDelete: bool)
      ensures Valid() && inboundLinks == map[]
      ensures fresh(registry) && registry.View() == PeerPolicy.Build(config)
      ensures clients.Keys == PeerNames(config.peers)
      ensures forall p | p in clients :: ClientFor(clients[p], p, config.peers, serverId, maxHops, allowFederatedDelete)
    {
      var reg := PeerPolicy.BuildGroupRegistry(config);
      bridge := new FederationBridge<(object, Event)>(4096);
      registry := reg;
      clients, inboundLinks := map[], map[];
      new;
      AddClients(config.peers, serverId, maxHops, allowFederatedDelete);
    }

    method AddClients(peers: seq<PeerPolicy.PeerConfig>, serverId: string, maxHops: int, allowFederatedDelete: bool)
      requires clients == map[]
      modifies this`clients
      ensures Valid() && clients.Keys == PeerNames(peers)
      ensures forall p | p in clients :: ClientFor(clients[p], p, peers, serverId, maxHops, allowFederatedDelete)
    {
      for i := 0 to |peers|
        invariant Valid() && clients.Keys == PeerNames(peers[..i])
        invariant forall p | p in clients :: ClientFor(clients[p], p, peers[..i], serverId, maxHops,
                                                       allowFederatedDelete)
      {
        var peer := peers[i];
        assert peers[..i + 1][..i] == peers[..i];
        if peer.enabled {
          var client := new FederateClient(serverId, peer.maxHops, maxHops, registry, allowFederatedDelete, bridge);
          clients := clients[peer.name := client];
        }
      }
      assert peers[..|peers|] == peers;
    }

    ghost predicate ClientFor(client: FederateClient, name: string, peers: seq<PeerPolicy.PeerConfig>,
                              serverId: string, maxHops: int, allowFederatedDelete: bool)
      reads this, client
    {
      && client.nodeId == serverId && client.localMaxHops == maxHops
      && client.allowFederatedDelete == allowFederatedDelete
      && client.registry == registry && client.bridge == bridge && client.state == DISABLED && client.outboundQ == []
      && LastNamed(peers, name).Some? && client.maxHops == LastNamed(peers, name).value.maxHops
    }

    method RegisterInboundLink(peer: string, link: InboundPeerLink)
      modifies this`inboundLinks
      ensures inboundLinks == Registered(old(inboundLinks), peer, link)
    {
      if peer !in inboundLinks {
        inboundLinks := inboundLinks[peer := []];
      }
      inboundLinks := inboundLinks[peer := inboundLinks[peer] + [link]];
    }

    method DeregisterInboundLink(peer: string, link: InboundPeerLink)
      modifies this`inboundLinks
      ensures inboundLinks == Deregistered(old(inboundLinks), peer, link)
    {
      if peer in inboundLinks && link in inboundLinks[peer] {
        inboundLinks := inboundLinks[peer := RemoveFirst(inboundLinks[peer], link)];
        if inboundLinks[peer] == [] {
          inboundLinks := inboundLinks - {peer};
        }
      }
    }

    static method AppendRow<L>(flat: seq<(string, L)>, peer: string, links: seq<L>) returns (longer: seq<(string, L)>)
      ensures forall i | 0 <= i < |longer| :: if i < |flat| then longer[i] == flat[i] else longer[i].0 == peer
      ensures forall other ::
        Under(longer, other) == if other == peer then Under(flat, other) + links else Under(flat, other)
    {
      longer := flat;
      for k := 0 to |links|
        invariant |longer| == |flat| + k
        invariant forall i | 0 <= i < |longer| :: if i < |flat| then longer[i] == flat[i] else longer[i].0 == peer
        invariant forall other ::
          Under(longer, other) == if other == peer then Under(flat, other) + links[..k] else Under(flat, other)
      {
        forall other ensures Under(longer + [(peer, links[k])], other)
          == if other == peer then Under(flat, other) + links[..k + 1] else Under(flat, other)
        {
          UnderSnoc(longer, peer, links[k], other);
          OneFurther(Under(flat, other), links, k);
        }
        longer := longer + [(peer, links[k])];
      }
      assert links[..|links|] == links;
    }

    method InboundLinksSnapshot() returns (flat: seq<(string, InboundPeerLink)>)
      ensures IsSnapshot(flat, inboundLinks)
    {
      flat := [];
      var rest := inboundLinks.Keys;
      while rest != {}
        invariant rest <= inboundLinks.Keys
        invariant forall i | 0 <= i < |flat| :: flat[i].0 in inboundLinks.Keys - rest
        invariant forall peer | peer in inboundLinks && peer !in rest :: Under(flat, peer) == inboundLinks[peer]
        decreases rest
      {
        var peer :| peer in rest;
        UnderNone(flat, peer);
        flat := AppendRow(flat, peer, inboundLinks[peer]);
        rest := rest - {peer};
      }
    }

    static function PeerOf(src: object?): Option<string>
      reads src
    {
      if src is FederateClient then (src as FederateClient).remoteServerId
      else if src is InboundPeerLink then Some((src as InboundPeerLink).peerServerId)
      else None
    }

    /** What a client gets when an event from `src` is fanned out. */
    twostate predicate ClientServed(client: FederateClient, src: object?, evt: Event)
      reads client, client.registry
    {
      if client == src || client.state != ACTIVE then client.outboundQ == old(client.outboundQ)
      else Appends(old(client.outboundQ), client.outboundQ, evt, client.nodeId, client.maxHops,
                   if client.registry == null then None else Some(client.registry.View()),
                   if client.remoteServerId.Some? then client.remoteServerId.value else "")
    }

    /** What a link's queue has become since it was `before`, offered an event some times. */
    static ghost predicate Offered(link: InboundPeerLink, before: seq<Wire>, offers: nat, evt: Event)
      reads link, link.registry
    {
      AppendsTimes(before, link.outboundQ, offers, evt, link.nodeId, link.defaultMaxHops,
                   if link.registry == null then None else Some(link.registry.View()), link.peerServerId)
    }

    twostate predicate LinkServed(link: InboundPeerLink, offers: nat, evt: Event)
      reads link, link.registry
    {
      Offered(link, old(link.outboundQ), offers, evt)
    }

    method OfferToClients(src: object?, evt: Event)
      requires Valid()
      modifies clients.Values`outboundQ
      ensures forall p | p in clients :: ClientServed(clients[p], src, evt)
    {
      var names := clients.Keys;
      while names != {}
        invariant names <= clients.Keys
        invariant forall p | p in names :: clients[p].outboundQ == old(clients[p].outboundQ)
        invariant forall p | p in clients && p !in names :: ClientServed(clients[p], src, evt)
        decreases names
      {
        var p :| p in names;
        names := names - {p};
        if clients[p] != src && clients[p].state == ACTIVE {
          clients[p].SendEvent(evt);
        }
      }
    }

    static method OfferOnceMore(link: InboundPeerLink, evt: Event, ghost before: seq<Wire>, ghost n: nat)
      requires Offered(link, before, n, evt)
      modifies link`outboundQ
      ensures Offered(link, before, n + 1, evt)
    {
      link.SendEvent(evt);
    }

    static lemma OffersNext(flat: seq<(string, InboundPeerLink)>, i: nat, links: set<InboundPeerLink>, src: object?,
                            srcPeer: Option<string>)
      requires i < |flat|
      ensures forall l | l in links ::
        Offers(flat[..i + 1], l, l == src, srcPeer)
          == Offers(flat[..i], l, l == src, srcPeer) + Due(flat[i], l, l == src, srcPeer)
    {
      assert flat[..i + 1] == flat[..i] + [flat[i]];
      forall l | l in links
        ensures Offers(flat[..i + 1], l, l == src, srcPeer)
          == Offers(flat[..i], l, l == src, srcPeer) + Due(flat[i], l, l == src, srcPeer)
      {
        OffersSnoc(flat[..i], flat[i], l, l == src, srcPeer);
      }
    }

    static method OfferAt(flat: seq<(string, InboundPeerLink)>, i: nat, link: InboundPeerLink, src: object?,
                          srcPeer: Option<string>, evt: Event, ghost before: map<InboundPeerLink, seq<Wire>>)
      requires i < |flat| && link == flat[i].1 && link in before
      requires forall l | l in before :: Offered(l, before[l], Offers(flat[..i], l, l == src, srcPeer), evt)
      modifies link`outboundQ
      ensures forall l | l in before :: Offered(l, before[l], Offers(flat[..i + 1], l, l == src, srcPeer), evt)
    {
      var peer := flat[i].0;
      OffersNext(flat, i, before.Keys, src, srcPeer);
      if link != src && srcPeer != Some(peer) {
        OfferOnceMore(link, evt, before[link], Offers(flat[..i], link, link == src, srcPeer));
      }
    }

    static method OfferInTurn(flat: seq<(string, InboundPeerLink)>, src: object?, srcPeer: Option<string>, evt: Event,
                              ghost before: map<InboundPeerLink, seq<Wire>>)
      requires forall i | 0 <= i < |flat| :: flat[i].1 in before
      requires forall link | link in before :: before[link] == link.outboundQ
      modifies before.Keys`outboundQ
      ensures forall link | link in before :: Offered(link, before[link], Offers(flat, link, link == src, srcPeer), evt)
    {
      for i := 0 to |flat|
        invariant forall link | link in before
          :: Offered(link, before[link], Offers(flat[..i], link, link == src, srcPeer), evt)
      {
        OfferAt(flat, i, flat[i].1, src, srcPeer, evt, before);
      }
      assert flat[..|flat|] == flat;
    }

    method OfferToLinks(src: object?, srcPeer: Option<string>, evt: Event)
      returns (flat: seq<(string, InboundPeerLink)>)
      modifies Links()`outboundQ
      ensures IsSnapshot(flat, inboundLinks)
      ensures forall link | link in Links() :: LinkServed(link, Offers(flat, link, link == src, srcPeer), evt)
    {
      flat := InboundLinksSnapshot();
      forall i | 0 <= i < |flat| ensures flat[i].1 in Links() {
        UnderOwn(flat, i);
        assert flat[i].1 in inboundLinks[flat[i].0];
      }
      OfferInTurn(flat, src, srcPeer, evt, map link | link in Links() :: link.outboundQ);
    }

    /** Fan-out: every ACTIVE client but the source is offered the event once; every inbound
        link as often as it is filed under a peer id other than the source's, unless it is the
        source itself. Nothing else changes, and each link's message depends on no other link. */
    method OnOutbound(src: object?, evt: Event) returns (flat: seq<(string, InboundPeerLink)>)
      requires Valid()
      modifies clients.Values`outboundQ, Links()`outboundQ
      ensures IsSnapshot(flat, inboundLinks)
      ensures forall p | p in clients ::
        var c := clients[p];
        if c == src || c.state != ACTIVE then c.outboundQ == old(c.outboundQ)
        else Appends(old(c.outboundQ), c.outboundQ, evt, c.nodeId, c.maxHops,
                     if c.registry == null then None else Some(c.registry.View()),
                     if c.remoteServerId.Some? then c.remoteServerId.value else "")
      ensures forall link | link in Links() :: LinkServed(link, Offers(flat, link, link == src, PeerOf(src)), evt)
      ensures forall link, peer | link in Links() && FiledOnlyUnder(inboundLinks, peer, link) ::
        if link == src || (src is InboundPeerLink && (src as InboundPeerLink).peerServerId == peer)
           || (src is FederateClient && (src as FederateClient).remoteServerId == Some(peer))
        then link.outboundQ == old(link.outboundQ)
        else if multiset(Row(inboundLinks, peer))[link] == 1
        then Appends(old(link.outboundQ), link.outboundQ, evt, link.nodeId, link.defaultMaxHops,
                     if link.registry == null then None else Some(link.registry.View()), link.peerServerId)
        else LinkServed(link, multiset(Row(inboundLinks, peer))[link], evt)
    {
      OfferToClients(src, evt);
      flat := OfferToLinks(src, PeerOf(src), evt);
      forall link, peer | link in Links() && FiledOnlyUnder(inboundLinks, peer, link)
        ensures Offers(flat, link, link == src, PeerOf(src))
          == if link == src || PeerOf(src) == Some(peer) then 0 else multiset(Row(inboundLinks, peer))[link]
      {
        OfferedAsInTable(flat, inboundLinks, peer, link, link == src, PeerOf(src));
      }
    }
  }

  /** A bus that relays: it delivers an event and then has it fanned out. */
  class RouterFakeBus {
    const manager: FederationManager
    var events: seq<(object?, Event)>

    constructor (manager: FederationManager)
      ensures this.manager == manager && events == []
    {
      this.manager, events := manager, [];
    }

    method Inject(src: object?, evt: Event) returns (flat: seq<(string, InboundPeerLink)>)
      requires manager.Valid()
      modifies this`events, manager.clients.Values`outboundQ, manager.Links()`outboundQ
      ensures events == old(events) + [(src, evt)]
      ensures IsSnapshot(flat, manager.inboundLinks)
      ensures forall p | p in manager.clients ::
        var c := manager.clients[p];
        if c == src || c.state != ACTIVE then c.outboundQ == old(c.outboundQ)
        else Appends(old(c.outboundQ), c.outboundQ, evt, c.nodeId, c.maxHops,
                     if c.registry == null then None else Some(c.registry.View()),
                     if c.remoteServerId.Some? then c.remoteServerId.value else "")
      ensures forall link | link in manager.Links() ::
        manager.LinkServed(link, Offers(flat, link, link == src, FederationManager.PeerOf(src)), evt)
      ensures forall link, peer | link in manager.Links() && FiledOnlyUnder(manager.inboundLinks, peer, link) ::
        if link == src || (src is InboundPeerLink && (src as InboundPeerLink).peerServerId == peer)
           || (src is FederateClient && (src as FederateClient).remoteServerId == Some(peer))
        then link.outboundQ == old(link.outboundQ)
        else if multiset(Row(manager.inboundLinks, peer))[link] == 1
        then Appends(old(link.outboundQ), link.outboundQ, evt, link.nodeId, link.defaultMaxHops,
                     if link.registry == null then None else Some(link.registry.View()), link.peerServerId)
        else manager.LinkServed(link, multiset(Row(manager.inboundLinks, peer))[link], evt)
    {
      events := events + [(src, evt)];
      flat := manager.OnOutbound(src, evt);
    }
  }
}
