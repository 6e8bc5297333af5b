/** A connection a peer opened to us, as something to send events on. */
module PeerLink {
  import opened Wrappers
  import opened Groups
  import opened Codec

  class InboundPeerLink {
    const nodeId: string
    const defaultMaxHops: int
    const registry: FederateGroupRegistry?
    var peerServerId: string
    var stop: bool
    var outboundQ: seq<Wire>

    constructor (peerServerId: string, nodeId: string, defaultMaxHops: int, registry: FederateGroupRegistry?)
      ensures this.peerServerId == peerServerId && this.nodeId == nodeId && this.defaultMaxHops == defaultMaxHops
      ensures this.registry == registry && !stop && outboundQ == []
    {
      this.peerServerId, this.nodeId := peerServerId, nodeId;
      this.defaultMaxHops, this.registry := defaultMaxHops, registry;
      stop, outboundQ := false, [];
    }

    method SendEvent(evt: Event)
      modifies this`outboundQ
      ensures Appends(old(outboundQ), outboundQ, evt, nodeId, defaultMaxHops,
                      if registry == null then None else Some(registry.View()), peerServerId)
    {
      var w := PrepareOutboundEvent(evt, nodeId, defaultMaxHops, registry, peerServerId);
      if w.Some? {
        outboundQ := outboundQ + [w.value];
      }
    }

    method RequestStop()
      modifies this`stop
      ensures stop
    {
      stop := true;
    }
  }
}
