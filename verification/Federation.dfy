/** Across the parts: the objects of a server do what a server of the mesh does, and certificates
    carry operators' policies from end to end. */
module Federation {
  import opened Wrappers
  import opened Text
  import opened Groups
  import opened Codec
  import opened Intake
  import opened FedServer
  import opened PeerPolicy
  import Client
  import Manager
  import Relay

  // ----- the mesh's servers are these -----

  predicate WellFormed(geo: Geo) {
    geo.uid != "" && geo.etype != "" && !geo.detail.MalformedDetail?
  }

  predicate Admissible(geo: Geo, allowDelete: bool) {
    allowDelete || !("t-x-d-d" <= geo.etype)
  }

  /** What a server accepts of a message is what a mesh server receives. */
  lemma ReceiveIsIntake(mesh: Relay.Mesh, m: Relay.Msg, w: Wire, geo: Geo, allowDelete: bool)
    requires m.at < |mesh| && Carries(w, geo, m.meta, m.groups) && WellFormed(geo)
    requires mesh[m.at].admitsType == Admissible(geo, allowDelete)
    ensures Accepted(w, mesh[m.at].ceiling, allowDelete, Governed(mesh[m.at].tables, m.entry.key))
      == match Relay.Receive(mesh, m)
         case None => None
         case Some(held) => Some(Event(geo, held.meta, held.acl))
  {}

  /** What it then leaves in a link's queue is what a mesh server sends on that link. */
  lemma SendIsAppend(mesh: Relay.Mesh, held: Relay.Held, j: nat, geo: Geo, before: seq<Wire>, after: seq<Wire>)
    requires Relay.OnLink(mesh, held, j) && !Relay.Skips(mesh[held.at].links[j], j, held.entry)
    requires held.meta.Some? ==> held.meta.value.groupLimits.None?
    requires var node, link := mesh[held.at], mesh[held.at].links[j];
      Appends(before, after, Event(geo, held.meta, held.acl), node.id, link.freshHops, Some(node.tables), link.key)
    ensures match Relay.Send(mesh, held, j)
      case None => after == before
      case Some(m) =>
        && |after| == |before| + 1 && after[..|before|] == before
        && Carries(after[|before|], geo, m.meta, m.groups)
  {}

  /** And the inbound links it passes over are those a mesh server does not send back on: by peer
      key, whichever connection the event came in on. Of the dialed ones it passes over just the
      one the event came in on. */
  lemma SkipsIsFanOut<L>(link: Relay.Link, j: nat, entry: Option<Relay.Entry>, l: L)
    ensures link.side.ListenSide? ==>
      (Relay.Skips(link, j, entry)
       <==> Manager.Due((link.key, l), l, false, if entry.Some? then Some(entry.value.key) else None) == 0)
    ensures link.side.DialedSide? ==> (Relay.Skips(link, j, entry) <==> entry.Some? && entry.value.dialed == Some(j))
  {}

  /** The condition on limits holds of everything our own servers relay: per-group limits never
      outlive a hop. */
  lemma LimitsEndAtTheFirstHop(mesh: Relay.Mesh, held: Relay.Held, j: nat)
    requires Relay.Send(mesh, held, j).Some?
    ensures var m := Relay.Send(mesh, held, j).value;
      && m.meta.groupLimits.None?
      && (Relay.Receive(mesh, m).Some? ==> Relay.Receive(mesh, m).value.meta.value.groupLimits.None?)
  {}

  // ----- certificates -----

  /** The dialing side and the listening side read the same table: a certificate binds a dialed
      server to a key exactly when it binds a connecting peer to it, and a dial is refused
      exactly when the same peer connecting to us would be quarantined. */
  lemma BothDirectionsAgree(fingerprints: map<string, string>, f: string, known: map<string, string>, address: string,
                            claimed: string)
    ensures var id := IdentityOf(Some(fingerprints), known, Context(address, Some(f)), claimed);
      Client.BoundKey(fingerprints, {f}) == if id.quarantined then None else Some((f, id.peerId))
  {}

  /** A configured certificate gets its stanza's policy as if no other stanza existed, and no
      matter what the peer claims to be. */
  lemma ListedCertificate(c: Config, i: nat, known: map<string, string>, context: Context, claimed: string, w: Wire,
                          ceiling: int, allowDelete: bool)
    requires NoCollisions(c.peers) && i < |c.peers| && c.peers[i].enabled
    requires context.certificate.Some? && context.certificate.value in Fingerprints(c.peers[i])
    ensures var t, key := Build(c), PolicyKey(c.peers[i]);
      var id := IdentityOf(Some(t.fingerprints), known, context, claimed);
      && id == Identity(key, false)
      && Accepted(w, ceiling, allowDelete, StandingOf(Some(t), id))
         == Accepted(w, ceiling, allowDelete, Governed(Build(Alone(c, c.peers[i])), key))
  {
    var key := PolicyKey(c.peers[i]);
    FingerprintsResolve(c, context.certificate.value);
    PolicyIsTheStanzas(c, i, key, key);
    AdmittedSame(Build(c), Build(Alone(c, c.peers[i])), key, Elements(w.groups));
  }

  lemma AdmittedSame(t: Tables, t': Tables, key: string, remote: set<string>)
    requires SamePolicy(t, key, t', key)
    ensures Admitted(t, key, remote) == Admitted(t', key, remote)
  {}

  /** A certificate that no enabled stanza lists gets nothing: its messages are dropped whatever
      the defaults allow and whatever it claims to be, and dialing into it is refused. */
  lemma {:induction false} UnlistedCertificate(c: Config, f: string, known: map<string, string>, address: string,
                                               claimed: string, w: Wire, ceiling: int, allowDelete: bool)
    requires NoCollisions(c.peers) && Unlisted(c.peers, f)
    ensures var t := Build(c);
      var id := IdentityOf(Some(t.fingerprints), known, Context(address, Some(f)), claimed);
      && id == Identity("unconfigured-cert:" + f, true)
      && Accepted(w, ceiling, allowDelete, StandingOf(Some(t), id)).None?
      && Client.BoundKey(t.fingerprints, {f}).None?
  {
    FingerprintsResolve(c, f);
    BothDirectionsAgree(Build(c).fingerprints, f, known, address, claimed);
  }

  /** Some certificate is bound to the key. */
  ghost predicate IsPolicyKey(c: Config, key: string) {
    exists f :: f in Build(c).fingerprints && Build(c).fingerprints[f] == key
  }

  /** The stand-in id of a quarantined connection is another peer's key exactly when some enabled
      stanza with a certificate goes by that very text. */
  lemma QuarantineIdCollidesExactly(c: Config, f: string)
    requires NoCollisions(c.peers)
    ensures IsPolicyKey(c, "unconfigured-cert:" + f)
      <==> exists i | 0 <= i < |c.peers| ::
        c.peers[i].enabled && Fingerprints(c.peers[i]) != [] && PolicyKey(c.peers[i]) == "unconfigured-cert:" + f
  {
    var key := "unconfigured-cert:" + f;
    if IsPolicyKey(c, key) {
      var g :| g in Build(c).fingerprints && Build(c).fingerprints[g] == key;
      FingerprintsResolve(c, g);
      var i :| 0 <= i < |c.peers| && c.peers[i].enabled && g in Fingerprints(c.peers[i]);
    }
    forall i | 0 <= i < |c.peers| && c.peers[i].enabled && Fingerprints(c.peers[i]) != []
      && PolicyKey(c.peers[i]) == key
      ensures IsPolicyKey(c, key)
    {
      var g := Fingerprints(c.peers[i])[0];
      FingerprintsResolve(c, g);
      assert g in Build(c).fingerprints;
    }
  }

  lemma LoneStanzaCollides(peer: PeerConfig, f: string)
    requires peer.enabled && Fingerprints(peer) != [] && PolicyKey(peer) == "unconfigured-cert:" + f
    ensures IsPolicyKey(Config("", "", [peer]), "unconfigured-cert:" + f)
  {
    var c := Config("", "", [peer]);
    assert c.peers[0] == peer && NoCollisions(c.peers);
    QuarantineIdCollidesExactly(c, f);
  }

  lemma OneFingerprint(peer: PeerConfig, f: string)
    requires peer.fingerprint == f && f != "" && Trimmed(f) && ',' !in f
    ensures Fingerprints(peer) == [f]
  {
    SplitWithoutSep(f, ',');
    StripTrimmed(f);
    var parts := [f];
    assert parts[..|parts| - 1] == [] && Items(parts[..|parts| - 1]) == [];
    assert Items(parts) == [f];
  }

  /** It can happen: nothing keeps an operator from declaring a server id of that form. */
  lemma QuarantineIdCanCollide(f: string)
    ensures var peer := PeerConfig("p", true, "host", 9100, -1, "unconfigured-cert:" + f, "x", false, "", "");
      IsPolicyKey(Config("", "", [peer]), "unconfigured-cert:" + f)
  {
    var peer := PeerConfig("p", true, "host", 9100, -1, "unconfigured-cert:" + f, "x", false, "", "");
    OneFingerprint(peer, "x");
    LoneStanzaCollides(peer, f);
  }

  // ----- dialed sessions -----

  /** A session that is ACTIVE under a configuration belongs to one of its enabled stanzas: the
      one certificate seen, before the first call and after the streams were open, is one the
      stanza lists, and the session's key is the stanza's. */
  lemma ActiveSession(c: Config, run: seq<Client.Step>, setup: Client.Setup) returns (i: nat, f: string)
    requires NoCollisions(c.peers) && setup.fingerprints == Some(Build(c).fingerprints)
    requires Client.After(run, setup).Some? && Client.After(run, setup).value.state.ACTIVE?
    ensures i < |c.peers| && c.peers[i].enabled && f in Fingerprints(c.peers[i])
    ensures var s := Client.After(run, setup).value;
      s.atResolve == {f} && s.atRecheck == {f} && s.remoteId == Some(PolicyKey(c.peers[i]))
  {
    Client.ActiveMeansConfirmed(run, setup);
    f := Client.After(run, setup).value.verified.value;
    FingerprintsResolve(c, f);
    i :| 0 <= i < |c.peers| && c.peers[i].enabled && f in Fingerprints(c.peers[i]);
  }

  /** What a client bound to a listed certificate's key then sends and lets in is governed by that
      stanza as if no other existed: an event leaves as the one message of its shared groups, or
      not at all, and a message is accepted as under the stanza alone. */
  lemma BoundSession(c: Config, i: nat, f: string, evt: Event, nodeId: string, maxHops: int, before: seq<Wire>,
                     after: seq<Wire>, w: Wire, ceiling: int, allowDelete: bool)
    requires NoCollisions(c.peers) && i < |c.peers| && c.peers[i].enabled && f in Fingerprints(c.peers[i])
    requires WithinGroupLimits(evt.meta, evt.aclGroups)
    ensures var bound := Client.BoundKey(Build(c).fingerprints, {f});
      bound == Some((f, PolicyKey(c.peers[i])))
    ensures var key, alone := PolicyKey(c.peers[i]), Build(Alone(c, c.peers[i]));
      var tags := Shared(alone, key, evt.aclGroups);
      && (Appends(before, after, evt, nodeId, maxHops, Some(Build(c)), key) ==>
          if Passable(evt.meta, nodeId, maxHops) && tags != {}
          then |after| == |before| + 1 && Carries(after[|before|], evt.geo, Advanced(evt.meta, nodeId, maxHops), tags)
          else after == before)
      && Accepted(w, ceiling, allowDelete, Governed(Build(c), key))
         == Accepted(w, ceiling, allowDelete, Governed(alone, key))
  {
    var key, alone := PolicyKey(c.peers[i]), Build(Alone(c, c.peers[i]));
    FingerprintsResolve(c, f);
    BothDirectionsAgree(Build(c).fingerprints, f, map[], "", "");
    PolicyIsTheStanzas(c, i, key, key);
    assert Shared(Build(c), key, evt.aclGroups) == Shared(alone, key, evt.aclGroups);
    AdmittedSame(Build(c), alone, key, Elements(w.groups));
    PolicyKeysNonEmpty(c);
    if Appends(before, after, evt, nodeId, maxHops, Some(Build(c)), key) {
      SentExactly(evt, nodeId, maxHops, Build(c), key, before, after);
    }
  }

  // ----- a hop in operators' terms -----

  /** What an operator's inbound lists make of a tag. */
  function Answer(own: seq<Piece>, default: seq<Piece>, fallback: bool, g: string): Option<string> {
    match Says(if Speaks(own) then own else default, g)
    case Some(answer) => answer
    case None => if fallback then Some(g) else None
  }

  /** One end of a link: a configuration, the stanza for the other end, and how the operator laid
      out that stanza's list and the default list for one direction. */
  datatype End = End(config: Config, stanza: nat, own: seq<Piece>, default: seq<Piece>)

  ghost predicate Proper(e: End) {
    NoCollisions(e.config.peers) && e.stanza < |e.config.peers| && e.config.peers[e.stanza].enabled
  }

  function Peer(e: End): PeerConfig
    requires Proper(e)
  {
    e.config.peers[e.stanza]
  }

  ghost predicate Sending(e: End) {
    Proper(e) && Reads(e.own, Peer(e).groupMapOut) && Reads(e.default, e.config.defaultGroupMapOut)
  }

  ghost predicate Receiving(e: End) {
    Proper(e) && Reads(e.own, Peer(e).groupMapIn) && Reads(e.default, e.config.defaultGroupMapIn)
  }

  /** The sender's lists give some group of the event a name that the receiver's lists map to
      `local`. */
  ghost predicate Reaches(acl: set<string>, s: End, r: End, local: string)
    requires Proper(r)
  {
    var out := if SharesAny(s.own) then s.own else s.default;
    exists g, tag :: g in acl && LastShare(out, g) == Some(tag)
      && Answer(r.own, r.default, Peer(r).fallbackWhenNoGroupMappings, tag) == Some(local)
  }

  ghost predicate ReachesAny(acl: set<string>, s: End, r: End)
    requires Proper(r)
  {
    exists local :: Reaches(acl, s, r, local)
  }

  /** What the receiver makes of what the sender put on the link, if anything. */
  function Got(before: seq<Wire>, after: seq<Wire>, tables: Tables, known: map<string, string>, context: Context,
               claimed: string, ceiling: int, allowDelete: bool): Option<Event>
  {
    if |after| <= |before| then None
    else Accepted(after[|before|], ceiling, allowDelete,
                  StandingOf(Some(tables), IdentityOf(Some(tables.fingerprints), known, context, claimed)))
  }

  /** Nothing but policy and type keeps the event off the link. */
  predicate Passable(meta: Option<FedMeta>, nodeId: string, maxHops: int) {
    MayPass(meta, nodeId) && FitsInt32(Advanced(meta, nodeId, maxHops).currentHops)
      && FitsInt32(Advanced(meta, nodeId, maxHops).maxHops)
  }

  ghost predicate WithinGroupLimits(meta: Option<FedMeta>, acl: set<string>) {
    meta.Some? && meta.value.groupLimits.Some? ==>
      forall g | g in acl :: WithinLimits(meta.value.groupLimits.value, g)
  }

  /** The sender has offered an event to the peer of its stanza, and the receiver takes what comes
      of it on a connection bearing a certificate its stanza lists. */
  ghost predicate Linked(s: End, r: End, evt: Event, nodeId: string, maxHops: int, before: seq<Wire>, after: seq<Wire>,
                         context: Context) {
    && Sending(s) && Appends(before, after, evt, nodeId, maxHops, Some(Build(s.config)), PolicyKey(Peer(s)))
    && Receiving(r) && context.certificate.Some? && context.certificate.value in Fingerprints(Peer(r))
    && WithinGroupLimits(evt.meta, evt.aclGroups)
  }

  /** From one server's configuration file to another's. The sender offers an event to the peer
      whose stanza lists the receiver's certificate; the receiver takes what comes on a connection
      bearing a certificate its stanza lists. The event crosses - it is sent, and it gets in - if
      and only if the envelope may pass, the receiver lets events of its type in, and some group
      of it is named by the one's outbound list and admitted by the other's inbound list; and it
      is then filed under exactly the groups so reached. */
  lemma {:induction false} CertifiedHop(s: End, r: End, evt: Event, nodeId: string, maxHops: int, before: seq<Wire>,
                                        after: seq<Wire>, known: map<string, string>, context: Context,
                                        claimed: string, ceiling: int, allowDelete: bool)
    ensures Linked(s, r, evt, nodeId, maxHops, before, after, context) ==>
      var got := Got(before, after, Build(r.config), known, context, claimed, ceiling, allowDelete);
      && (got.Some? <==>
          Passable(evt.meta, nodeId, maxHops) && WellFormed(evt.geo) && Admissible(evt.geo, allowDelete)
            && ReachesAny(evt.aclGroups, s, r))
      && (got.Some? ==>
          && got.value.geo == evt.geo && got.value.meta == Some(Received(Advanced(evt.meta, nodeId, maxHops), ceiling))
          && forall local :: local in got.value.aclGroups <==> Reaches(evt.aclGroups, s, r, local))
  {
    if Linked(s, r, evt, nodeId, maxHops, before, after, context) {
      SentExactly(evt, nodeId, maxHops, Build(s.config), PolicyKey(Peer(s)), before, after);
      if ReachesAny(evt.aclGroups, s, r) {
        SharesSomething(s, r, evt.aclGroups);
      }
      if |after| > |before| {
        CertifiedIntake(r, known, context, claimed, after[|before|], evt.geo, ceiling, allowDelete);
        HopImage(s, r, evt.aclGroups);
      }
    }
  }

  /** What leaves for a governed peer: nothing, or the one message. */
  lemma SentExactly(evt: Event, nodeId: string, maxHops: int, tables: Tables, key: string, before: seq<Wire>,
                    after: seq<Wire>)
    requires key != "" && WithinGroupLimits(evt.meta, evt.aclGroups)
    requires Appends(before, after, evt, nodeId, maxHops, Some(tables), key)
    ensures var tags := Shared(tables, key, evt.aclGroups);
      if Passable(evt.meta, nodeId, maxHops) && tags != {}
      then |after| == |before| + 1 && Carries(after[|before|], evt.geo, Advanced(evt.meta, nodeId, maxHops), tags)
      else after == before
  {
    var tags := Shared(tables, key, evt.aclGroups);
    if evt.meta.Some? && evt.meta.value.groupLimits.Some? {
      forall g | g in evt.aclGroups ensures !GroupExhausted(evt.meta.value.groupLimits.value, g) {
        ExhaustedExactly(evt.meta.value.groupLimits.value, g);
      }
    }
    var probe :| FirstOf(evt.aclGroups, probe) &&
      match Prepare(evt.meta, evt.aclGroups, probe, nodeId, maxHops, Some(tables), key)
      case Dropped(_) => after == before
      case Sent(meta, groups) =>
        && |after| == |before| + 1 && after[..|before|] == before
        && Carries(after[|before|], evt.geo, meta, groups);
    assert Prepare(evt.meta, evt.aclGroups, probe, nodeId, maxHops, Some(tables), key).Sent?
      <==> Passable(evt.meta, nodeId, maxHops) && tags != {};
  }

  /** What a certified connection's message is admitted as. */
  lemma CertifiedIntake(r: End, known: map<string, string>, context: Context, claimed: string,
                        w: Wire, geo: Geo, ceiling: int, allowDelete: bool)
    requires Proper(r) && w.geo == Some(geo)
    requires context.certificate.Some? && context.certificate.value in Fingerprints(Peer(r))
    ensures var id := IdentityOf(Some(Build(r.config).fingerprints), known, context, claimed);
      var evt := Accepted(w, ceiling, allowDelete, StandingOf(Some(Build(r.config)), id));
      var admitted := Admitted(Build(r.config), PolicyKey(Peer(r)), Elements(w.groups));
      && (evt.Some? <==> WellFormed(geo) && Admissible(geo, allowDelete) && admitted != {})
      && (evt.Some? ==> evt.value == Event(geo, Some(DecodeMeta(w, ceiling)), admitted))
  {
    FingerprintsResolve(r.config, context.certificate.value);
  }

  lemma SharesSomething(s: End, r: End, acl: set<string>)
    requires Sending(s) && Proper(r) && ReachesAny(acl, s, r)
    ensures Shared(Build(s.config), PolicyKey(Peer(s)), acl) != {}
  {
    var local :| Reaches(acl, s, r, local);
    var out := if SharesAny(s.own) then s.own else s.default;
    var g, tag :| g in acl && LastShare(out, g) == Some(tag)
      && Answer(r.own, r.default, Peer(r).fallbackWhenNoGroupMappings, tag) == Some(local);
    OutboundMeaning(s.config, s.stanza, PolicyKey(Peer(s)), s.own, s.default, g);
    assert tag in Shared(Build(s.config), PolicyKey(Peer(s)), acl);
  }

  lemma {:induction false} HopImage(s: End, r: End, acl: set<string>)
    requires Sending(s) && Receiving(r) && Shared(Build(s.config), PolicyKey(Peer(s)), acl) != {}
    ensures var admitted := Admitted(Build(r.config), PolicyKey(Peer(r)),
                                     Shared(Build(s.config), PolicyKey(Peer(s)), acl));
      && (forall local :: local in admitted <==> Reaches(acl, s, r, local))
      && (admitted != {} <==> ReachesAny(acl, s, r))
  {
    var out := if SharesAny(s.own) then s.own else s.default;
    var fallback := Peer(r).fallbackWhenNoGroupMappings;
    var keyS, keyR := PolicyKey(Peer(s)), PolicyKey(Peer(r));
    var tags := Shared(Build(s.config), keyS, acl);
    forall g ensures Outbound(Build(s.config), keyS, g) == LastShare(out, g) {
      OutboundMeaning(s.config, s.stanza, keyS, s.own, s.default, g);
    }
    forall g ensures Inbound(Build(r.config), keyR, g) == Answer(r.own, r.default, fallback, g) {
      InboundMeaning(r.config, r.stanza, keyR, r.own, r.default, g);
    }
    var admitted := Admitted(Build(r.config), keyR, tags);
    forall local ensures local in admitted <==> Reaches(acl, s, r, local) {
      if local in admitted {
        var tag :| tag in tags && Inbound(Build(r.config), keyR, tag) == Some(local);
        var g :| g in acl && Outbound(Build(s.config), keyS, g) == Some(tag);
        assert LastShare(out, g) == Some(tag) && Answer(r.own, r.default, fallback, tag) == Some(local);
      }
      if Reaches(acl, s, r, local) {
        var g, tag :| g in acl && LastShare(out, g) == Some(tag)
          && Answer(r.own, r.default, fallback, tag) == Some(local);
        assert Outbound(Build(s.config), keyS, g) == Some(tag);
        assert tag in tags;
      }
    }
    if admitted != {} {
      var local :| local in admitted;
      assert Reaches(acl, s, r, local);
    }
  }
}
