/** CoT event trees. Tail text and namespaces are not represented. */
module Cot {
  import opened Wrappers

  datatype Elem = Elem(tag: string, attrs: map<string, string>, children: seq<Elem>)

  /** The first child with a tag. */
  function Find(children: seq<Elem>, tag: string): Option<Elem> {
    if children == [] then None
    else if children[0].tag == tag then Some(children[0])
    else Find(children[1..], tag)
  }

  function Attr(e: Elem, name: string, default: string): string {
    if name in e.attrs then e.attrs[name] else default
  }
}

/** The federation envelope: provenance, hop budget and group tags around an event, and the
    decision whether an event may be sent on to a peer. */
module Codec {
  import opened Wrappers
  import opened Groups
  import Cot

  const UNLIMITED := -1
  const INT32_MIN := -0x8000_0000
  const INT32_MAX := 0x7fff_ffff

  datatype GroupLimit = GroupLimit(groupName: string, maxHops: int, currentHops: int)

  datatype GroupLimits = GroupLimits(enabled: bool, limits: seq<GroupLimit>)

  /** Provenance and hops carried beside an event. */
  datatype FedMeta = FedMeta(chain: seq<string>, currentHops: int, maxHops: int, groupLimits: Option<GroupLimits>)

  datatype Geo = Geo(uid: string, etype: string, detail: Detail)

  datatype Detail = NoDetail | MalformedDetail | Tree(elem: Cot.Elem)

  /** An event with its sidecars. `aclGroups` is {} when there is none attached. */
  datatype Event = Event(geo: Geo, meta: Option<FedMeta>, aclGroups: set<string>)

  /** A message as it travels between servers. */
  datatype Wire = Wire(
    geo: Option<Geo>,
    provenance: seq<string>,
    currentHops: int,
    maxHops: int,
    groupLimits: Option<GroupLimits>,
    groups: seq<string>)

  predicate FitsInt32(n: int) {
    INT32_MIN <= n <= INT32_MAX
  }

  // ----- receiving -----

  function ResolveMaxHops(wire: int, local: int): int {
    if wire <= 0 then local
    else if local <= 0 then wire
    else if wire <= local then wire else local
  }

  /** A peer may tighten our hop ceiling and never loosen it: with a positive ceiling the
      result is positive and within it, and within the peer's own budget if it sent one; two
      ceilings bind the same in either order. */
  lemma ResolveNeverLoosens(wire: int, local: int, other: int)
    ensures local > 0 ==> 0 < ResolveMaxHops(wire, local) <= local
    ensures wire > 0 ==> 0 < ResolveMaxHops(wire, local) <= wire
    ensures ResolveMaxHops(wire, local) in {wire, local}
    ensures wire <= 0 && local <= 0 ==> ResolveMaxHops(wire, local) == local
    ensures wire > 0 ==>
      ResolveMaxHops(ResolveMaxHops(wire, local), other) == ResolveMaxHops(ResolveMaxHops(wire, other), local)
    ensures ResolveMaxHops(ResolveMaxHops(wire, local), local) == ResolveMaxHops(wire, local)
  {}

  /** What a server makes of the sidecar a peer sent it. */
  function Received(meta: FedMeta, localMaxHops: int): FedMeta {
    FedMeta(meta.chain, meta.currentHops, ResolveMaxHops(meta.maxHops, localMaxHops),
            if meta.groupLimits.Some? && meta.groupLimits.value.enabled && meta.groupLimits.value.limits != []
            then meta.groupLimits else None)
  }

  function DecodeMeta(w: Wire, localMaxHops: int): FedMeta {
    Received(FedMeta(w.provenance, w.currentHops, w.maxHops, w.groupLimits), localMaxHops)
  }

  /** The event a message carries; None when it has none, lacks a uid or a type, or its detail
      does not parse. */
  function DecodeFederatedEvent(w: Wire): Option<Geo> {
    if w.geo.None? || w.geo.value.uid == "" || w.geo.value.etype == "" || w.geo.value.detail.MalformedDetail?
    then None else w.geo
  }

  /** What arrives of a sidecar: all of it but the budget, which is clamped, and per-group limits
      that are switched off or empty. */
  lemma DecodedExactly(w: Wire, local: int)
    ensures var m := DecodeMeta(w, local);
      && m.chain == w.provenance && m.currentHops == w.currentHops && m.maxHops == ResolveMaxHops(w.maxHops, local)
      && (m.groupLimits.Some? <==>
          && w.groupLimits.Some? && w.groupLimits.value.enabled
          && exists limit :: limit in w.groupLimits.value.limits)
      && (m.groupLimits.Some? ==> m.groupLimits == w.groupLimits)
  {
    if w.groupLimits.Some? && w.groupLimits.value.limits != [] {
      assert w.groupLimits.value.limits[0] in w.groupLimits.value.limits;
    }
  }

  // ----- sending -----

  datatype Drop = OwnIdInChain | HopsExhausted | GroupHopsExhausted | NoAclGroups | NoSharedGroup | Unencodable

  /** Either the reason an event is not sent, or the sidecar and group tags it is sent with;
      no tags means an untagged message. */
  datatype Outcome = Dropped(why: Drop) | Sent(meta: FedMeta, groups: set<string>)

  /** The first limit for a group, the only one that is looked at. */
  function LimitFor(limits: seq<GroupLimit>, group: string): Option<GroupLimit> {
    if limits == [] then None
    else if limits[0].groupName == group then Some(limits[0])
    else LimitFor(limits[1..], group)
  }

  /** Limit `i` is the first one for the group. */
  predicate FirstLimit(limits: seq<GroupLimit>, group: string, i: int) {
    0 <= i < |limits| && limits[i].groupName == group && forall j | 0 <= j < i :: limits[j].groupName != group
  }

  lemma {:induction false} LimitForIsFirst(limits: seq<GroupLimit>, group: string)
    ensures LimitFor(limits, group).Some? <==> exists i :: FirstLimit(limits, group, i)
    ensures forall i | FirstLimit(limits, group, i) :: LimitFor(limits, group) == Some(limits[i])
  {
    if limits != [] {
      if limits[0].groupName == group {
        assert FirstLimit(limits, group, 0);
      } else {
        LimitForIsFirst(limits[1..], group);
        forall i ensures FirstLimit(limits, group, i) <==> FirstLimit(limits[1..], group, i - 1) {
          LimitShift(limits, group, i);
        }
        if i :| FirstLimit(limits[1..], group, i) {
          assert FirstLimit(limits, group, i + 1);
        }
      }
    }
  }

  lemma LimitShift(limits: seq<GroupLimit>, group: string, i: int)
    requires limits != [] && limits[0].groupName != group
    ensures FirstLimit(limits, group, i) <==> FirstLimit(limits[1..], group, i - 1)
  {
    var rest := limits[1..];
    if FirstLimit(rest, group, i - 1) {
      forall j | 0 <= j < i ensures limits[j].groupName != group {
        assert j == 0 || rest[j - 1].groupName != group;
      }
    }
    if FirstLimit(limits, group, i) {
      forall j | 0 <= j < i - 1 ensures rest[j].groupName != group {
        assert limits[j + 1].groupName != group;
      }
    }
  }

  /** The first limit for the group, if limits are on, is not reached. */
  predicate WithinLimits(limits: GroupLimits, group: string) {
    limits.enabled ==> forall i | 0 <= i < |limits.limits| && FirstLimit(limits.limits, group, i) ::
      limits.limits[i].maxHops == -1 || limits.limits[i].currentHops < limits.limits[i].maxHops
  }

  lemma ExhaustedExactly(limits: GroupLimits, group: string)
    ensures GroupExhausted(limits, group) <==> !WithinLimits(limits, group)
  {
    LimitForIsFirst(limits.limits, group);
  }

  predicate GroupExhausted(limits: GroupLimits, group: string) {
    var limit := LimitFor(limits.limits, group);
    limits.enabled && limit.Some? && limit.value.maxHops != UNLIMITED && limit.value.currentHops >= limit.value.maxHops
  }

  /** The sidecar a sent event leaves with. Per-group limits are not carried over. */
  function Advanced(meta: Option<FedMeta>, nodeId: string, defaultMaxHops: int): FedMeta {
    match meta
    case None => FedMeta([nodeId], 1, defaultMaxHops, None)
    case Some(m) => FedMeta(m.chain + [nodeId], m.currentHops + 1, m.maxHops, None)
  }

  /** A group the iteration over the event's group set may yield first. */
  predicate FirstOf(groups: set<string>, probe: Option<string>) {
    if groups == {} then probe.None? else probe.Some? && probe.value in groups
  }

  /** The server is not in the chain, and the budget is not used up. */
  predicate MayPass(meta: Option<FedMeta>, id: string) {
    meta.Some? ==>
      && id !in meta.value.chain
      && (meta.value.maxHops == UNLIMITED || meta.value.currentHops < meta.value.maxHops)
  }

  /** The send decision. `probe` is the group that the per-group limit happens to be looked up
      for; `policy` is None when no registry is configured. */
  function Prepare(meta: Option<FedMeta>, acl: set<string>, probe: Option<string>,
                   nodeId: string, defaultMaxHops: int, policy: Option<Tables>, peer: string): Outcome
  {
    if meta.Some? && nodeId in meta.value.chain then Dropped(OwnIdInChain)
    else if meta.Some? && meta.value.maxHops != UNLIMITED && meta.value.currentHops >= meta.value.maxHops
      then Dropped(HopsExhausted)
    else if meta.Some? && meta.value.groupLimits.Some? && probe.Some?
      && GroupExhausted(meta.value.groupLimits.value, probe.value)
    then Dropped(GroupHopsExhausted)
    else
      var governed := policy.Some? && peer != "";
      var groups := if governed then Shared(policy.value, peer, acl) else {};
      if governed && acl == {} then Dropped(NoAclGroups)
      else if governed && groups == {} then Dropped(NoSharedGroup)
      else
        var next := Advanced(meta, nodeId, defaultMaxHops);
        if FitsInt32(next.currentHops) && FitsInt32(next.maxHops) then Sent(next, groups) else Dropped(Unencodable)
  }

  /** A message says what the decision says, and carries the event unchanged. */
  predicate Carries(w: Wire, geo: Geo, meta: FedMeta, groups: set<string>) {
    && w.geo == Some(geo) && w.provenance == meta.chain
    && w.currentHops == meta.currentHops && w.maxHops == meta.maxHops
    && w.groupLimits == meta.groupLimits && Elements(w.groups) == groups
  }

  method EncodeFederatedEvent(geo: Geo, meta: FedMeta) returns (w: Option<Wire>)
    ensures w.Some? <==> FitsInt32(meta.currentHops) && FitsInt32(meta.maxHops)
    ensures w.Some? ==> Carries(w.value, geo, meta, {}) && w.value.groups == []
  {
    var provenance: seq<string> := [];
    for i := 0 to |meta.chain|
      invariant provenance == meta.chain[..i]
    {
      provenance := provenance + [meta.chain[i]];
    }
    if !FitsInt32(meta.currentHops) || !FitsInt32(meta.maxHops) {
      return None;
    }
    return Some(Wire(Some(geo), provenance, meta.currentHops, meta.maxHops, meta.groupLimits, []));
  }

  /** The elements of a set in some order, each once. */
  method ListOf(groups: set<string>) returns (list: seq<string>)
    ensures Elements(list) == groups && |list| == |groups|
  {
    list := [];
    var rest := groups;
    while rest != {}
      invariant Elements(list) + rest == groups && Elements(list) !! rest && |list| + |rest| == |groups|
      decreases rest
    {
      var g :| g in rest;
      ElementsAppend(list, g);
      list, rest := list + [g], rest - {g};
    }
  }

  method PrepareOutboundEvent(evt: Event, nodeId: string, defaultMaxHops: int,
                              registry: FederateGroupRegistry?, peer: string) returns (w: Option<Wire>)
    ensures exists probe | FirstOf(evt.aclGroups, probe) ::
      match Prepare(evt.meta, evt.aclGroups, probe, nodeId, defaultMaxHops,
                    if registry == null then None else Some(registry.View()), peer)
      case Dropped(_) => w.None?
      case Sent(meta, groups) => w.Some? && Carries(w.value, evt.geo, meta, groups)
  {
    ghost var policy := if registry == null then None else Some(registry.View());
    var probe: Option<string> := None;
    if evt.aclGroups != {} {
      var g :| g in evt.aclGroups;
      probe := Some(g);
    }
    assert FirstOf(evt.aclGroups, probe);
    ghost var outcome := Prepare(evt.meta, evt.aclGroups, probe, nodeId, defaultMaxHops, policy, peer);
    if evt.meta.Some? {
      var meta := evt.meta.value;
      if nodeId in meta.chain {
        return None;
      }
      if meta.maxHops != UNLIMITED && meta.currentHops >= meta.maxHops {
        return None;
      }
      if meta.groupLimits.Some? && meta.groupLimits.value.enabled && probe.Some? {
        var exhausted := LimitReached(meta.groupLimits.value, probe.value);
        if exhausted {
          return None;
        }
      }
    }
    var remoteGroups: seq<string> := [];
    if registry != null && peer != "" {
      if evt.aclGroups == {} {
        return None;
      }
      var localGroups := ListOf(evt.aclGroups);
      remoteGroups := registry.MapOutboundGroups(peer, localGroups);
      SharedListElements(registry.View(), peer, localGroups);
      if remoteGroups == [] {
        return None;
      }
    }
    var next := if evt.meta.None? then FedMeta([nodeId], 1, defaultMaxHops, None)
                else FedMeta(evt.meta.value.chain + [nodeId], evt.meta.value.currentHops + 1, evt.meta.value.maxHops,
                             None);
    w := EncodeFederatedEvent(evt.geo, next);
    if w.Some? && remoteGroups != [] {
      w := Some(w.value.(groups := remoteGroups));
    }
  }

  /** What a send leaves in an outbound queue: nothing, or one message that says what the send
      decision says, for some order of the event's groups. */
  ghost predicate Appends(before: seq<Wire>, after: seq<Wire>, evt: Event, nodeId: string, maxHops: int,
                          policy: Option<Tables>, peer: string) {
    exists probe | FirstOf(evt.aclGroups, probe) ::
      match Prepare(evt.meta, evt.aclGroups, probe, nodeId, maxHops, policy, peer)
      case Dropped(_) => after == before
      case Sent(meta, groups) =>
        && |after| == |before| + 1 && after[..|before|] == before
        && Carries(after[|before|], evt.geo, meta, groups)
  }

  method LimitReached(limits: GroupLimits, group: string) returns (reached: bool)
    requires limits.enabled
    ensures reached <==> GroupExhausted(limits, group)
  {
    for i := 0 to |limits.limits|
      invariant LimitFor(limits.limits, group) == LimitFor(limits.limits[i..], group)
    {
      var lim := limits.limits[i];
      if lim.groupName == group {
        return lim.maxHops != UNLIMITED && lim.currentHops >= lim.maxHops;
      }
      assert limits.limits[i..][1..] == limits.limits[i + 1..];
    }
    return false;
  }

  /** When an event is sent to a governed peer, and what leaves: exactly when our id is not in
      its chain, its hop budget is not used up, the group looked at is within its limit, and
      some of its groups is shared with the peer; the message then has our id appended, one
      more hop, the same budget, no per-group limits, and precisely the shared names. */
  lemma PrepareExact(meta: Option<FedMeta>, acl: set<string>, probe: Option<string>,
                     nodeId: string, defaultMaxHops: int, tables: Tables, peer: string)
    requires peer != "" && if acl == {} then probe.None? else probe.Some? && probe.value in acl
    ensures var outcome := Prepare(meta, acl, probe, nodeId, defaultMaxHops, Some(tables), peer);
      && (outcome.Sent? <==>
          && EnvelopePasses(meta, nodeId, defaultMaxHops)
          && (meta.Some? && acl != {} && meta.value.groupLimits.Some?
              ==> WithinLimits(meta.value.groupLimits.value, probe.value))
          && exists g :: g in acl && Outbound(tables, peer, g).Some?)
      && (outcome.Sent? ==>
          && SentEnvelope(outcome.meta, meta, nodeId, defaultMaxHops)
          && forall r :: r in outcome.groups <==> exists g :: g in acl && Outbound(tables, peer, g) == Some(r))
  {
    if meta.Some? && acl != {} && meta.value.groupLimits.Some? {
      ExhaustedExactly(meta.value.groupLimits.value, probe.value);
    }
    if exists g :: g in acl && Outbound(tables, peer, g).Some? {
      var g :| g in acl && Outbound(tables, peer, g).Some?;
      assert Outbound(tables, peer, g).value in Shared(tables, peer, acl);
    }
  }

  /** Our id is not in the chain, the budget is not used up, and the numbers fit their 32 bits. */
  predicate EnvelopePasses(meta: Option<FedMeta>, nodeId: string, defaultMaxHops: int) {
    match meta
    case None => -0x8000_0000 <= defaultMaxHops < 0x8000_0000
    case Some(m) =>
      && nodeId !in m.chain && (m.maxHops == -1 || m.currentHops < m.maxHops)
      && -0x8000_0000 <= m.currentHops + 1 < 0x8000_0000 && -0x8000_0000 <= m.maxHops < 0x8000_0000
  }

  /** The sidecar as it leaves: our id appended, one more hop, the same budget, no group limits. */
  predicate SentEnvelope(out: FedMeta, meta: Option<FedMeta>, nodeId: string, defaultMaxHops: int) {
    && out.groupLimits.None?
    && out.chain == (if meta.Some? then meta.value.chain else []) + [nodeId]
    && out.currentHops == (if meta.Some? then meta.value.currentHops else 0) + 1
    && out.maxHops == (if meta.Some? then meta.value.maxHops else defaultMaxHops)
  }

  /** Without a registry, or to a peer without a key, the same but for the groups: none are asked
      for, and the message is untagged. */
  lemma PrepareUngoverned(meta: Option<FedMeta>, acl: set<string>, probe: Option<string>,
                          nodeId: string, defaultMaxHops: int, policy: Option<Tables>, peer: string)
    requires policy.None? || peer == ""
    requires if acl == {} then probe.None? else probe.Some? && probe.value in acl
    ensures var outcome := Prepare(meta, acl, probe, nodeId, defaultMaxHops, policy, peer);
      && (outcome.Sent? <==>
          && EnvelopePasses(meta, nodeId, defaultMaxHops)
          && (meta.Some? && acl != {} && meta.value.groupLimits.Some?
              ==> WithinLimits(meta.value.groupLimits.value, probe.value)))
      && (outcome.Sent? ==> SentEnvelope(outcome.meta, meta, nodeId, defaultMaxHops) && outcome.groups == {})
  {
    if meta.Some? && acl != {} && meta.value.groupLimits.Some? {
      ExhaustedExactly(meta.value.groupLimits.value, probe.value);
    }
  }

  /** What one of our nodes receives from another: the sender's id added to the chain, its hop
      counted, the budget clamped to the receiver's ceiling, and no per-group limits. Whatever
      groups and peer it is for, the sender would not send it on again. */
  lemma SentThenDecoded(geo: Geo, meta: Option<FedMeta>, nodeId: string, defaultMaxHops: int, w: Wire,
                        groups: set<string>, local: int)
    requires Carries(w, geo, Advanced(meta, nodeId, defaultMaxHops), groups)
    ensures var m := DecodeMeta(w, local);
      && m.chain == (if meta.Some? then meta.value.chain else []) + [nodeId]
      && m.currentHops == (if meta.Some? then meta.value.currentHops else 0) + 1
      && m.groupLimits.None?
      && m.maxHops == ResolveMaxHops(Advanced(meta, nodeId, defaultMaxHops).maxHops, local)
    ensures forall acl, probe, hops, policy, peer ::
      Prepare(Some(DecodeMeta(w, local)), acl, probe, nodeId, hops, policy, peer) == Dropped(OwnIdInChain)
  {}
}
