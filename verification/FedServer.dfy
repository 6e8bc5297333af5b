/** The server side: who a connection is, what happens to the events it streams in, and which
    connections events are fanned out to. */
module FedServer {
  import opened Wrappers
  import opened Groups
  import opened Codec
  import opened Bridge
  import opened Intake
  import opened PeerLink
  import Manager

  /** A connection: its transport address, and the fingerprint of the certificate presented on
      it, if any. */
  datatype Context = Context(address: string, certificate: Option<string>)

  datatype Identity = Identity(peerId: string, quarantined: bool)

  const UNKNOWN_PEER := "unknown-peer"
  const UNCONFIGURED := "unconfigured-cert:"

  function AddressOf(context: Context): string {
    if context.address == "" then UNKNOWN_PEER else context.address
  }

  /** What a connection is called for want of anything better: the id last registered for its
      address, or the address. */
  function Addressed(known: map<string, string>, context: Context): string {
    if AddressOf(context) in known then known[AddressOf(context)] else AddressOf(context)
  }

  /** Who a connection is. `claimed` is the id it calls itself, "" for none; with a certificate
      and a registry only the certificate counts. */
  function IdentityOf(fingerprints: Option<map<string, string>>, known: map<string, string>, context: Context,
                      claimed: string): Identity {
    if context.certificate.None? || fingerprints.None? then
      Identity(if claimed != "" then claimed else Addressed(known, context), false)
    else
      var f := context.certificate.value;
      if f in fingerprints.value then Identity(fingerprints.value[f], false) else Identity(UNCONFIGURED + f, true)
  }

  function StandingOf(policy: Option<Tables>, id: Identity): Standing {
    match policy
    case None => Ungoverned
    case Some(tables) => if id.quarantined then Quarantined else Governed(tables, id.peerId)
  }

  /** The events a stream of messages puts on the bridge. */
  function AcceptedAll(src: object, ws: seq<Wire>, ceiling: int, allowDelete: bool, standing: Standing)
    : seq<(object, Event)>
  {
    if ws == [] then []
    else
      var init := AcceptedAll(src, ws[..|ws| - 1], ceiling, allowDelete, standing);
      match Accepted(ws[|ws| - 1], ceiling, allowDelete, standing)
      case None => init
      case Some(evt) => init + [(src, evt)]
  }

  /** What a stream puts on the bridge, message by message: one that is accepted adds its event at
      the end, any other adds nothing. */
  lemma StreamGrows(src: object, ws: seq<Wire>, w: Wire, ceiling: int, allowDelete: bool, standing: Standing)
    ensures AcceptedAll(src, [], ceiling, allowDelete, standing) == []
    ensures AcceptedAll(src, ws + [w], ceiling, allowDelete, standing)
      == AcceptedAll(src, ws, ceiling, allowDelete, standing)
         + match Accepted(w, ceiling, allowDelete, standing) case None => [] case Some(evt) => [(src, evt)]
  {
    assert (ws + [w])[..|ws|] == ws;
  }

  /** With a certificate and a registry, neither the address, nor what was registered for it,
      nor what the peer calls itself has a say in who it is. */
  lemma CertificateDecides(fingerprints: map<string, string>, known: map<string, string>, context: Context,
                           claimed: string, known': map<string, string>, context': Context, claimed': string)
    requires context.certificate.Some? && context'.certificate == context.certificate
    ensures IdentityOf(Some(fingerprints), known, context, claimed)
      == IdentityOf(Some(fingerprints), known', context', claimed')
  {}

  /** Without a certificate, or without a registry, a connection is what it calls itself, or else
      what was last registered for its address, or else its address; it is never quarantined. */
  lemma WithoutCertificate(fingerprints: Option<map<string, string>>, known: map<string, string>, context: Context,
                           claimed: string)
    requires context.certificate.None? || fingerprints.None?
    ensures var id := IdentityOf(fingerprints, known, context, claimed);
      var address := if context.address == "" then "unknown-peer" else context.address;
      && !id.quarantined
      && (claimed != "" ==> id.peerId == claimed)
      && (claimed == "" && address in known ==> id.peerId == known[address])
      && (claimed == "" && address !in known ==> id.peerId == address)
  {}

  /** What the identity means for a connection's messages: without a registry they are not
      governed at all, in quarantine they are refused, and otherwise its key's policy applies. */
  lemma StandingExact(tables: Tables, id: Identity, w: Wire, ceiling: int, allowDelete: bool)
    ensures StandingOf(None, id).Ungoverned?
    ensures id.quarantined ==> Accepted(w, ceiling, allowDelete, StandingOf(Some(tables), id)).None?
    ensures !id.quarantined ==> StandingOf(Some(tables), id) == Governed(tables, id.peerId)
  {}

  lemma AcceptedNext(src: object, ws: seq<Wire>, i: nat, ceiling: int, allowDelete: bool, standing: Standing,
                     before: seq<(object, Event)>)
    requires i < |ws|
    ensures before + AcceptedAll(src, ws[..i + 1], ceiling, allowDelete, standing)
      == match Accepted(ws[i], ceiling, allowDelete, standing)
         case None => before + AcceptedAll(src, ws[..i], ceiling, allowDelete, standing)
         case Some(evt) => before + AcceptedAll(src, ws[..i], ceiling, allowDelete, standing) + [(src, evt)]
  {
    assert ws[..i + 1][..i] == ws[..i];
  }

  class FederatedChannelServicer {
    const serverId: string
    const defaultMaxHops: int
    const registry: FederateGroupRegistry?
    const allowFederatedDelete: bool
    const bridge: FederationBridge<(object, Event)>
    const manager: Manager.FederationManager
    var peerAddrToServerId: map<string, string>

    constructor (serverId: string, defaultMaxHops: int, registry: FederateGroupRegistry?, allowFederatedDelete: bool,
                 bridge: FederationBridge<(object, Event)>, manager: Manager.FederationManager)
      ensures this.serverId == serverId && this.defaultMaxHops == defaultMaxHops && this.registry == registry
      ensures this.allowFederatedDelete == allowFederatedDelete && this.bridge == bridge && this.manager == manager
      ensures peerAddrToServerId == map[]
    {
      this.serverId, this.defaultMaxHops, this.registry := serverId, defaultMaxHops, registry;
      this.allowFederatedDelete, this.bridge, this.manager := allowFederatedDelete, bridge, manager;
      peerAddrToServerId := map[];
    }

    method RegisterPeerAddr(context: Context, id: string)
      modifies this`peerAddrToServerId
      ensures peerAddrToServerId == if id == "" || context.address == "" then old(peerAddrToServerId)
                                    else old(peerAddrToServerId)[context.address := id]
    {
      if id == "" || context.address == "" {
        return;
      }
      peerAddrToServerId := peerAddrToServerId[context.address := id];
    }

    method ResolvePeerId(context: Context) returns (id: string)
      ensures id == Addressed(peerAddrToServerId, context)
    {
      var address := if context.address == "" then UNKNOWN_PEER else context.address;
      id := if address in peerAddrToServerId then peerAddrToServerId[address] else address;
    }

    method ResolveAuthenticatedPeer(context: Context, claimed: string) returns (id: Identity)
      ensures id == IdentityOf(if registry == null then None else Some(registry.View().fingerprints),
                               peerAddrToServerId, context, claimed)
    {
      if context.certificate.None? || registry == null {
        var candidate := claimed;
        if candidate == "" {
          candidate := ResolvePeerId(context);
        }
        return Identity(candidate, false);
      }
      var peer := registry.ResolvePeerIdByFingerprint(context.certificate.value);
      if peer.None? {
        return Identity(UNCONFIGURED + context.certificate.value, true);
      }
      return Identity(peer.value, false);
    }

    /** One event of a stream. The identity is resolved anew for each. */
    method HandleEvent(src: InboundPeerLink, context: Context, w: Wire)
      requires bridge.Valid()
      modifies bridge, src`peerServerId
      ensures bridge.Valid()
      ensures var id := IdentityOf(if registry == null then None else Some(registry.View().fingerprints),
                                   peerAddrToServerId, context, "");
        var standing := StandingOf(if registry == null then None else Some(registry.View()), id);
        && src.peerServerId == id.peerId
        && match Accepted(w, defaultMaxHops, allowFederatedDelete, standing)
           case None => bridge.queue == old(bridge.queue)
           case Some(evt) => bridge.queue == old(bridge.queue) + [(src, evt)]
    {
      var id := ResolveAuthenticatedPeer(context, "");
      src.peerServerId := id.peerId;
      var geo := DecodeFederatedEvent(w);
      if geo.None? {
        return;
      }
      if !allowFederatedDelete && IsDelete(geo.value.etype) {
        return;
      }
      var locals := {};
      if registry != null {
        var mapped := None;
        if !id.quarantined {
          mapped := registry.MapInboundGroups(id.peerId, w.groups);
        }
        if mapped.None? {
          return;
        }
        locals := mapped.value;
      }
      bridge.Enqueue((src, Event(geo.value, Some(DecodeMeta(w, defaultMaxHops)), locals)));
    }

    /** A stream of events, from a source object of its own. A stream that ends before its
        first event ends in an error. */
    method ServerEventStream(context: Context, ws: seq<Wire>) returns (src: InboundPeerLink, ok: bool)
      requires bridge.Valid()
      modifies bridge
      ensures bridge.Valid() && fresh(src) && (ok <==> ws != [])
      ensures var id := IdentityOf(if registry == null then None else Some(registry.View().fingerprints),
                                   peerAddrToServerId, context, "");
        var standing := StandingOf(if registry == null then None else Some(registry.View()), id);
        && src.peerServerId == (if ok then id.peerId else Addressed(peerAddrToServerId, context))
        && bridge.queue
           == old(bridge.queue) + AcceptedAll(src, ws, defaultMaxHops, allowFederatedDelete, standing)
    {
      var id := ResolvePeerId(context);
      src := new InboundPeerLink(id, serverId, defaultMaxHops, null);
      ghost var who := IdentityOf(if registry == null then None else Some(registry.View().fingerprints),
                                  peerAddrToServerId, context, "");
      ghost var standing := StandingOf(if registry == null then None else Some(registry.View()), who);
      for i := 0 to |ws|
        invariant bridge.Valid()
        invariant src.peerServerId == if i > 0 then who.peerId else Addressed(peerAddrToServerId, context)
        invariant bridge.queue
          == old(bridge.queue) + AcceptedAll(src, ws[..i], defaultMaxHops, allowFederatedDelete, standing)
      {
        AcceptedNext(src, ws, i, defaultMaxHops, allowFederatedDelete, standing, old(bridge.queue));
        HandleEvent(src, context, ws[i]);
      }
      assert ws[..|ws|] == ws;
      ok := |ws| > 0;
    }

    /** A peer asks for our events: its connection is registered for fan-out unless it is
        quarantined. */
    method OpenClientEventStream(context: Context, claimed: string) returns (link: InboundPeerLink, id: Identity)
      modifies this`peerAddrToServerId, manager`inboundLinks
      ensures id == IdentityOf(if registry == null then None else Some(registry.View().fingerprints),
                               old(peerAddrToServerId), context, claimed)
      ensures fresh(link) && link.peerServerId == id.peerId && link.nodeId == serverId
        && link.defaultMaxHops == defaultMaxHops
      ensures link.registry == registry && link.outboundQ == [] && !link.stop
      ensures peerAddrToServerId == if id.peerId == "" || context.address == "" then old(peerAddrToServerId)
                                    else old(peerAddrToServerId)[context.address := id.peerId]
      ensures manager.inboundLinks == if id.quarantined then old(manager.inboundLinks)
                                      else Manager.Registered(old(manager.inboundLinks), id.peerId, link)
    {
      id := ResolveAuthenticatedPeer(context, claimed);
      RegisterPeerAddr(context, id.peerId);
      link := new InboundPeerLink(id.peerId, serverId, defaultMaxHops, registry);
      if !id.quarantined {
        manager.RegisterInboundLink(id.peerId, link);
      }
    }

    method CloseClientEventStream(link: InboundPeerLink, id: Identity)
      modifies link`stop, manager`inboundLinks
      ensures link.stop
      ensures manager.inboundLinks == if id.quarantined then old(manager.inboundLinks)
                                      else Manager.Deregistered(old(manager.inboundLinks), id.peerId, link)
    {
      link.RequestStop();
      if !id.quarantined {
        manager.DeregisterInboundLink(id.peerId, link);
      }
    }
  }
}
