/** From configuration to policy: how the peer stanzas and the defaults fill the registry. */
module PeerPolicy {
  import opened Wrappers
  import opened Text
  import opened Groups
  import CertIdentity

  datatype PeerConfig = PeerConfig(
    name: string,
    enabled: bool,
    address: string,
    port: int,
    maxHops: int,
    serverId: string,
    fingerprint: string,
    fallbackWhenNoGroupMappings: bool,
    groupMapIn: string,
    groupMapOut: string)

  datatype Config = Config(defaultGroupMapIn: string, defaultGroupMapOut: string, peers: seq<PeerConfig>)

  // ----- what one stanza contributes -----

  function Provisional(p: PeerConfig): string {
    p.address + ":" + PrintInt(p.port)
  }

  /** The keys a stanza's tables are filed under. */
  function Keys(p: PeerConfig): set<string> {
    {Provisional(p)} + (if p.serverId != "" then {p.serverId} else {})
  }

  /** The key a stanza's certificates resolve to. */
  function PolicyKey(p: PeerConfig): string {
    if p.serverId != "" then p.serverId else Provisional(p)
  }

  function Fingerprints(p: PeerConfig): seq<string> {
    Items(Split(p.fingerprint, ','))
  }

  /** A map that does not parse counts as empty. */
  function ParsedOrEmpty(raw: string, direction: Direction): seq<GroupEntry> {
    match Parse(raw, direction) case Err(_) => [] case Ok(entries) => entries
  }

  function FiledUnder(entries: seq<GroupEntry>, peer: string): seq<GroupEntry> {
    seq(|entries|, i requires 0 <= i < |entries| => entries[i].(peerId := peer))
  }

  function WithEntries(t: Tables, entries: seq<GroupEntry>): Tables {
    if entries == [] then t
    else WithEntry(WithEntries(t, entries[..|entries| - 1]), entries[|entries| - 1])
  }

  function WithFingerprints(t: Tables, list: seq<string>, peer: string): Tables {
    if list == [] then t
    else
      var rest := WithFingerprints(t, list[..|list| - 1], peer);
      rest.(fingerprints := rest.fingerprints[list[|list| - 1] := peer])
  }

  function WithFallback(t: Tables, p: PeerConfig): Tables {
    if !p.fallbackWhenNoGroupMappings then t
    else
      var t1 := t.(fallback := t.fallback[Provisional(p) := true]);
      if p.serverId == "" then t1 else t1.(fallback := t1.fallback[p.serverId := true])
  }

  /** Both copies of a direction's entries: under the address, and under the declared id. */
  function WithMaps(t: Tables, p: PeerConfig, entries: seq<GroupEntry>): Tables {
    var t1 := WithEntries(t, FiledUnder(entries, Provisional(p)));
    if p.serverId == "" then t1 else WithEntries(t1, FiledUnder(entries, p.serverId))
  }

  function WithPeer(t: Tables, p: PeerConfig): Tables {
    if !p.enabled then t
    else
      var t1 := WithFingerprints(t, Fingerprints(p), PolicyKey(p));
      var t2 := WithFallback(t1, p);
      var t3 := WithMaps(t2, p, ParsedOrEmpty(p.groupMapIn, In));
      WithMaps(t3, p, ParsedOrEmpty(p.groupMapOut, Out))
  }

  function WithPeers(t: Tables, peers: seq<PeerConfig>): Tables {
    if peers == [] then t
    else WithPeer(WithPeers(t, peers[..|peers| - 1]), peers[|peers| - 1])
  }

  function Defaults(c: Config): Tables {
    var ins, outs := ParsedOrEmpty(c.defaultGroupMapIn, In), ParsedOrEmpty(c.defaultGroupMapOut, Out);
    EMPTY.(defaultIn := if ins == [] then None else Some(InTableOf(ins)),
           defaultOut := if outs == [] then None else Some(OutTableOf(outs)))
  }

  function Build(c: Config): Tables {
    WithPeers(Defaults(c), c.peers)
  }

  // ----- the builder -----

  lemma ParseEmpty(direction: Direction)
    ensures ParsedOrEmpty("", direction) == []
  {}

  method ParseOrWarn(raw: string, direction: Direction) returns (entries: seq<GroupEntry>)
    ensures entries == ParsedOrEmpty(raw, direction)
  {
    if raw == "" {
      ParseEmpty(direction);
      return [];
    }
    var parsed := ParseGroupMap(raw, direction);
    match parsed {
      case Err(_) => return [];
      case Ok(list) => return list;
    }
  }

  method RegisterFingerprints(registry: FederateGroupRegistry, raw: string, peer: string)
    modifies registry
    ensures registry.View() == WithFingerprints(old(registry.View()), Items(Split(raw, ',')), peer)
  {
    var parts := Split(raw, ',');
    for i := 0 to |parts|
      invariant registry.View() == WithFingerprints(old(registry.View()), Items(parts[..i]), peer)
    {
      assert parts[..i + 1][..i] == parts[..i];
      var part := Strip(parts[i]);
      if part == "" {
        continue;
      }
      registry.RegisterFingerprint(part, peer);
    }
    assert parts[..|parts|] == parts;
  }

  method AddEntries(registry: FederateGroupRegistry, entries: seq<GroupEntry>, peer: string)
    modifies registry
    ensures registry.View() == WithEntries(old(registry.View()), FiledUnder(entries, peer))
  {
    var filed := FiledUnder(entries, peer);
    for i := 0 to |entries|
      invariant registry.View() == WithEntries(old(registry.View()), filed[..i])
    {
      assert filed[..i + 1][..i] == filed[..i];
      registry.AddPeerMap(entries[i].(peerId := peer));
    }
    assert filed[..|filed|] == filed;
  }

  method AddPeer(registry: FederateGroupRegistry, p: PeerConfig)
    modifies registry
    ensures registry.View() == WithPeer(old(registry.View()), p)
  {
    if !p.enabled {
      return;
    }
    var provisional := p.address + ":" + PrintInt(p.port);
    if p.fingerprint != "" {
      RegisterFingerprints(registry, p.fingerprint, PolicyKey(p));
    } else {
      assert Split("", ',')[..0] == [];
      assert Fingerprints(p) == [];
    }
    if p.fallbackWhenNoGroupMappings {
      registry.SetFallbackAllow(provisional, true);
      if p.serverId != "" {
        registry.SetFallbackAllow(p.serverId, true);
      }
    }
    var entries := ParseOrWarn(p.groupMapIn, In);
    AddEntries(registry, entries, provisional);
    if p.serverId != "" {
      AddEntries(registry, entries, p.serverId);
    }
    entries := ParseOrWarn(p.groupMapOut, Out);
    AddEntries(registry, entries, provisional);
    if p.serverId != "" {
      AddEntries(registry, entries, p.serverId);
    }
  }

  method SetDefaults(registry: FederateGroupRegistry, config: Config)
    requires registry.View() == EMPTY
    modifies registry
    ensures registry.View() == Defaults(config)
  {
    var entries := ParseOrWarn(config.defaultGroupMapIn, In);
    if entries != [] {
      registry.SetDefaultInMap(entries);
    }
    entries := ParseOrWarn(config.defaultGroupMapOut, Out);
    if entries != [] {
      registry.SetDefaultOutMap(entries);
    }
  }

  /** The builder's result is the policy the lemmas below are about. */
  method BuildGroupRegistry(config: Config) returns (registry: FederateGroupRegistry)
    ensures fresh(registry) && registry.View() == Build(config)
  {
    registry := new FederateGroupRegistry();
    SetDefaults(registry, config);
    var peers, start := config.peers, Defaults(config);
    for i := 0 to |peers|
      invariant fresh(registry) && registry.View() == WithPeers(start, peers[..i])
    {
      assert peers[..i + 1][..i] == peers[..i];
      AddPeer(registry, peers[i]);
    }
    assert peers[..|peers|] == peers;
  }

  // ----- rows: what one key sees -----

  /** Everything the tables hold under one key. */
  datatype Row = Row(inbound: Option<InTable>, outbound: Option<OutTable>, fallback: bool)

  function At<T>(m: map<string, T>, key: string): Option<T> {
    if key in m then Some(m[key]) else None
  }

  function RowOf(t: Tables, key: string): Row {
    Row(At(t.inbound, key), At(t.outbound, key), key in t.fallback && t.fallback[key])
  }

  const NO_ROW := Row(None, None, false)

  function Overlaid<K, V>(old': Option<map<K, V>>, more: map<K, V>): Option<map<K, V>> {
    if more == map[] then old'
    else match old' case None => Some(more) case Some(m) => Some(m + more)
  }

  function RowWith(r: Row, entries: seq<GroupEntry>, direction: Direction): Row {
    if direction.In? then r.(inbound := Overlaid(r.inbound, InTableOf(entries)))
    else r.(outbound := Overlaid(r.outbound, OutTableOf(entries)))
  }

  predicate SameBesidesRows(t: Tables, t': Tables) {
    t'.fingerprints == t.fingerprints && t'.defaultIn == t.defaultIn && t'.defaultOut == t.defaultOut
  }

  predicate AllOf(entries: seq<GroupEntry>, direction: Direction) {
    forall i | 0 <= i < |entries| :: entries[i].direction == direction
  }

  lemma {:induction false} ParsedDirection(tokens: seq<string>, direction: Direction)
    ensures ParseTokens(tokens, direction).Ok? ==> AllOf(ParseTokens(tokens, direction).value, direction)
  {
    if tokens != [] {
      ParsedDirection(tokens[..|tokens| - 1], direction);
    }
  }

  lemma OverlaidPut<K, V>(old': Option<map<K, V>>, more: map<K, V>, k: K, v: V)
    ensures Overlaid(old', more[k := v])
      == Some((match Overlaid(old', more) case None => map[] case Some(m) => m)[k := v])
  {
    assert k in more[k := v];
    if old'.Some? {
      assert old'.value + more[k := v] == (old'.value + more)[k := v];
      assert old'.value + map[] == old'.value;
    }
  }

  lemma OverlaidTwice<K, V>(old': Option<map<K, V>>, more: map<K, V>)
    ensures Overlaid(Overlaid(old', more), more) == Overlaid(old', more)
  {
    assert more + more == more;
    if old'.Some? {
      assert old'.value + more + more == old'.value + more;
    }
  }

  lemma WithEntryRow(t: Tables, e: GroupEntry, key: string)
    requires e.direction.In? || e.direction.Out?
    ensures SameBesidesRows(t, WithEntry(t, e))
    ensures var (r, r') := (RowOf(t, key), RowOf(WithEntry(t, e), key));
      r' == if key != e.peerId then r
            else if e.direction.In? then
              r.(inbound := Some((match r.inbound case None => map[] case Some(m) => m)[e.remoteGroup := e.localGroup]))
            else if e.localGroup.None? then r
            else
              var was := match r.outbound case None => map[] case Some(m) => m;
              r.(outbound := Some(was[e.localGroup.value := e.remoteGroup]))
  {}

  lemma {:induction false} WithEntriesRow(t: Tables, entries: seq<GroupEntry>, peer: string, direction: Direction,
                                          key: string)
    requires direction.In? || direction.Out?
    requires AllOf(entries, direction) && forall i | 0 <= i < |entries| :: entries[i].peerId == peer
    ensures SameBesidesRows(t, WithEntries(t, entries))
    ensures RowOf(WithEntries(t, entries), key)
      == if key == peer then RowWith(RowOf(t, key), entries, direction) else RowOf(t, key)
  {
    if entries != [] {
      var init, e := entries[..|entries| - 1], entries[|entries| - 1];
      WithEntriesRow(t, init, peer, direction, key);
      WithEntryRow(WithEntries(t, init), e, key);
      var r := RowOf(t, key);
      if direction.In? {
        OverlaidPut(r.inbound, InTableOf(init), e.remoteGroup, e.localGroup);
      } else if e.localGroup.Some? {
        OverlaidPut(r.outbound, OutTableOf(init), e.localGroup.value, e.remoteGroup);
      }
    }
  }

  lemma {:induction false} TableOfFiled(entries: seq<GroupEntry>, peer: string)
    ensures InTableOf(FiledUnder(entries, peer)) == InTableOf(entries)
    ensures OutTableOf(FiledUnder(entries, peer)) == OutTableOf(entries)
  {
    if entries != [] {
      TableOfFiled(entries[..|entries| - 1], peer);
      assert FiledUnder(entries, peer)[..|entries| - 1] == FiledUnder(entries[..|entries| - 1], peer);
    }
  }

  lemma FiledRow(t: Tables, entries: seq<GroupEntry>, peer: string, direction: Direction, key: string)
    requires (direction.In? || direction.Out?) && AllOf(entries, direction)
    ensures var t' := WithEntries(t, FiledUnder(entries, peer));
      && SameBesidesRows(t, t')
      && RowOf(t', key) == if key == peer then RowWith(RowOf(t, key), entries, direction) else RowOf(t, key)
  {
    WithEntriesRow(t, FiledUnder(entries, peer), peer, direction, key);
    TableOfFiled(entries, peer);
  }

  lemma WithMapsRow(t: Tables, p: PeerConfig, entries: seq<GroupEntry>, direction: Direction, key: string)
    requires (direction.In? || direction.Out?) && AllOf(entries, direction)
    ensures var t' := WithMaps(t, p, entries);
      && SameBesidesRows(t, t')
      && RowOf(t', key) == if key in Keys(p) then RowWith(RowOf(t, key), entries, direction) else RowOf(t, key)
  {
    FiledRow(t, entries, Provisional(p), direction, key);
    if p.serverId != "" {
      FiledRow(WithEntries(t, FiledUnder(entries, Provisional(p))), entries, p.serverId, direction, key);
      OverlaidTwice(RowOf(t, key).inbound, InTableOf(entries));
      OverlaidTwice(RowOf(t, key).outbound, OutTableOf(entries));
    }
  }

  lemma {:induction false} WithFingerprintsFrame(t: Tables, list: seq<string>, peer: string)
    ensures WithFingerprints(t, list, peer) == t.(fingerprints := WithFingerprints(t, list, peer).fingerprints)
  {
    if list != [] {
      WithFingerprintsFrame(t, list[..|list| - 1], peer);
    }
  }

  lemma {:induction false} WithFingerprintsAt(t: Tables, list: seq<string>, peer: string, f: string)
    ensures At(WithFingerprints(t, list, peer).fingerprints, f)
      == if f in list then Some(peer) else At(t.fingerprints, f)
  {
    if list != [] {
      WithFingerprintsAt(t, list[..|list| - 1], peer, f);
      assert list == list[..|list| - 1] + [list[|list| - 1]];
    }
  }

  lemma WithFallbackRow(t: Tables, p: PeerConfig, key: string)
    ensures SameBesidesRows(t, WithFallback(t, p))
    ensures RowOf(WithFallback(t, p), key)
      == if key in Keys(p) && p.fallbackWhenNoGroupMappings then RowOf(t, key).(fallback := true) else RowOf(t, key)
  {}

  /** The row a stanza makes where none was. */
  function OwnRow(p: PeerConfig): Row {
    RowWith(RowWith(Row(None, None, p.fallbackWhenNoGroupMappings), ParsedOrEmpty(p.groupMapIn, In), In),
            ParsedOrEmpty(p.groupMapOut, Out), Out)
  }

  /** A stanza touches only its own keys and its own fingerprints, and where its keys are new
      it leaves the row it makes on its own. */
  lemma WithPeerRow(t: Tables, p: PeerConfig, key: string)
    requires p.enabled
    ensures key !in Keys(p) ==> RowOf(WithPeer(t, p), key) == RowOf(t, key)
    ensures key in Keys(p) && RowOf(t, key) == NO_ROW ==> RowOf(WithPeer(t, p), key) == OwnRow(p)
    ensures SameBesidesRows(WithFingerprints(t, Fingerprints(p), PolicyKey(p)), WithPeer(t, p))
    ensures WithPeer(t, p).defaultIn == t.defaultIn && WithPeer(t, p).defaultOut == t.defaultOut
  {
    var ins, outs := ParsedOrEmpty(p.groupMapIn, In), ParsedOrEmpty(p.groupMapOut, Out);
    ParsedDirection(Split(p.groupMapIn, ','), In);
    ParsedDirection(Split(p.groupMapOut, ','), Out);
    WithFingerprintsFrame(t, Fingerprints(p), PolicyKey(p));
    var t1 := WithFingerprints(t, Fingerprints(p), PolicyKey(p));
    WithFallbackRow(t1, p, key);
    var t2 := WithFallback(t1, p);
    WithMapsRow(t2, p, ins, In, key);
    var t3 := WithMaps(t2, p, ins);
    WithMapsRow(t3, p, outs, Out, key);
  }

  // ----- the whole configuration -----

  /** Enabled stanzas share neither a key nor a fingerprint. */
  ghost predicate NoCollisions(peers: seq<PeerConfig>) {
    forall i, j | 0 <= i < j < |peers| && peers[i].enabled && peers[j].enabled :: Disjoint(peers[i], peers[j])
  }

  ghost predicate Disjoint(p: PeerConfig, q: PeerConfig) {
    && (forall key :: !(key in Keys(p) && key in Keys(q)))
    && (forall f :: !(f in Fingerprints(p) && f in Fingerprints(q)))
  }

  predicate Unclaimed(peers: seq<PeerConfig>, key: string) {
    forall i | 0 <= i < |peers| && peers[i].enabled :: key !in Keys(peers[i])
  }

  predicate Unlisted(peers: seq<PeerConfig>, f: string) {
    forall i | 0 <= i < |peers| && peers[i].enabled :: f !in Fingerprints(peers[i])
  }

  lemma {:induction false} PeersDefaults(t: Tables, peers: seq<PeerConfig>)
    ensures WithPeers(t, peers).defaultIn == t.defaultIn && WithPeers(t, peers).defaultOut == t.defaultOut
  {
    if peers != [] {
      PeersDefaults(t, peers[..|peers| - 1]);
      if peers[|peers| - 1].enabled {
        WithPeerRow(WithPeers(t, peers[..|peers| - 1]), peers[|peers| - 1], "");
      }
    }
  }

  lemma {:induction false} UnclaimedRow(t: Tables, peers: seq<PeerConfig>, key: string)
    requires Unclaimed(peers, key)
    ensures RowOf(WithPeers(t, peers), key) == RowOf(t, key)
  {
    if peers != [] {
      var init, last := peers[..|peers| - 1], peers[|peers| - 1];
      UnclaimedRow(t, init, key);
      if last.enabled {
        WithPeerRow(WithPeers(t, init), last, key);
      }
    }
  }

  lemma {:induction false} ClaimedRow(t: Tables, peers: seq<PeerConfig>, i: nat, key: string)
    requires NoCollisions(peers) && RowOf(t, key) == NO_ROW
    requires i < |peers| && peers[i].enabled && key in Keys(peers[i])
    ensures RowOf(WithPeers(t, peers), key) == OwnRow(peers[i])
    decreases |peers|
  {
    var n := |peers| - 1;
    var init, last := peers[..n], peers[n];
    if i == n {
      forall j | 0 <= j < n && init[j].enabled ensures key !in Keys(init[j]) {
        assert Disjoint(peers[j], peers[n]);
      }
      UnclaimedRow(t, init, key);
    } else {
      NoCollisionsPrefix(peers);
      ClaimedRow(t, init, i, key);
    }
    if last.enabled {
      WithPeerRow(WithPeers(t, init), last, key);
    }
  }

  lemma NoCollisionsPrefix(peers: seq<PeerConfig>)
    requires NoCollisions(peers) && peers != []
    ensures NoCollisions(peers[..|peers| - 1])
    ensures forall i | 0 <= i < |peers| - 1 && peers[i].enabled && peers[|peers| - 1].enabled
      :: Disjoint(peers[i], peers[|peers| - 1])
  {}

  lemma WithPeerFingerprint(t: Tables, p: PeerConfig, f: string)
    ensures At(WithPeer(t, p).fingerprints, f)
      == if p.enabled && f in Fingerprints(p) then Some(PolicyKey(p)) else At(t.fingerprints, f)
  {
    if p.enabled {
      WithPeerRow(t, p, "");
      WithFingerprintsAt(t, Fingerprints(p), PolicyKey(p), f);
    }
  }

  lemma {:induction false} UnlistedFingerprint(t: Tables, peers: seq<PeerConfig>, f: string)
    requires Unlisted(peers, f)
    ensures At(WithPeers(t, peers).fingerprints, f) == At(t.fingerprints, f)
  {
    if peers != [] {
      var init, last := peers[..|peers| - 1], peers[|peers| - 1];
      UnlistedFingerprint(t, init, f);
      WithPeerFingerprint(WithPeers(t, init), last, f);
    }
  }

  lemma {:induction false} ListedFingerprint(t: Tables, peers: seq<PeerConfig>, i: nat, f: string)
    requires NoCollisions(peers) && i < |peers| && peers[i].enabled && f in Fingerprints(peers[i])
    ensures At(WithPeers(t, peers).fingerprints, f) == Some(PolicyKey(peers[i]))
    decreases |peers|
  {
    var n := |peers| - 1;
    var init, last := peers[..n], peers[n];
    NoCollisionsPrefix(peers);
    if i < n {
      ListedFingerprint(t, init, i, f);
    }
    WithPeerFingerprint(WithPeers(t, init), last, f);
  }

  /** Lookups depend on a key's row and the defaults alone. */
  lemma RowDecides(t: Tables, key: string, t': Tables, key': string)
    requires RowOf(t, key) == RowOf(t', key') && t.defaultIn == t'.defaultIn && t.defaultOut == t'.defaultOut
    ensures SamePolicy(t, key, t', key')
  {}

  /** Only this stanza, and the defaults. */
  function Alone(c: Config, p: PeerConfig): Config {
    c.(peers := [p])
  }

  /** A stanza's policy is its own: under every key it is filed under, each group maps, in
      both directions, as if it were the only stanza configured; and all its keys agree. */
  lemma PolicyIsTheStanzas(c: Config, i: nat, key: string, other: string)
    requires NoCollisions(c.peers) && i < |c.peers| && c.peers[i].enabled
    requires key in Keys(c.peers[i]) && other in Keys(c.peers[i])
    ensures SamePolicy(Build(c), key, Build(Alone(c, c.peers[i])), key)
    ensures SamePolicy(Build(c), key, Build(c), other)
  {
    var p := c.peers[i];
    PeersDefaults(Defaults(c), c.peers);
    PeersDefaults(Defaults(c), [p]);
    ClaimedRow(Defaults(c), c.peers, i, key);
    ClaimedRow(Defaults(c), [p], 0, key);
    RowDecides(Build(c), key, Build(Alone(c, p)), key);
    ClaimedRow(Defaults(c), c.peers, i, other);
    RowDecides(Build(c), key, Build(c), other);
  }

  /** Every configured certificate resolves to its stanza's key, one of those its tables are
      filed under; a certificate no enabled stanza lists resolves to nothing. */
  lemma FingerprintsResolve(c: Config, f: string)
    requires NoCollisions(c.peers)
    ensures forall i | 0 <= i < |c.peers| && c.peers[i].enabled && f in Fingerprints(c.peers[i]) ::
      var p := c.peers[i];
      && PolicyKey(p) == (if p.serverId != "" then p.serverId else p.address + ":" + PrintInt(p.port))
      && PolicyKey(p) in Keys(p) && f in Build(c).fingerprints && Build(c).fingerprints[f] == PolicyKey(p)
    ensures f !in Build(c).fingerprints <==> Unlisted(c.peers, f)
  {
    forall i | 0 <= i < |c.peers| && c.peers[i].enabled && f in Fingerprints(c.peers[i])
      ensures At(Build(c).fingerprints, f) == Some(PolicyKey(c.peers[i]))
    {
      ListedFingerprint(Defaults(c), c.peers, i, f);
    }
    if Unlisted(c.peers, f) {
      UnlistedFingerprint(Defaults(c), c.peers, f);
    }
  }

  lemma {:induction false} ResolvedKeyNonEmpty(t: Tables, peers: seq<PeerConfig>, f: string)
    ensures At(WithPeers(t, peers).fingerprints, f) == At(t.fingerprints, f)
      || (At(WithPeers(t, peers).fingerprints, f).Some? && At(WithPeers(t, peers).fingerprints, f).value != "")
  {
    if peers != [] {
      var init, last := peers[..|peers| - 1], peers[|peers| - 1];
      ResolvedKeyNonEmpty(t, init, f);
      WithPeerFingerprint(WithPeers(t, init), last, f);
    }
  }

  /** With no condition on the configuration: whatever a certificate resolves to, it is not
      the empty key that would switch group policy off. */
  lemma PolicyKeysNonEmpty(c: Config)
    ensures forall f | f in Build(c).fingerprints :: Build(c).fingerprints[f] != ""
  {
    forall f | f in Build(c).fingerprints ensures Build(c).fingerprints[f] != "" {
      ResolvedKeyNonEmpty(Defaults(c), c.peers, f);
    }
  }

  /** A key no enabled stanza is filed under is governed by the defaults, with no fallback. */
  lemma UnconfiguredGetsDefaults(c: Config, key: string)
    requires Unclaimed(c.peers, key)
    ensures SamePolicy(Build(c), key, Defaults(c), key)
  {
    PeersDefaults(Defaults(c), c.peers);
    UnclaimedRow(Defaults(c), c.peers, key);
    RowDecides(Build(c), key, Defaults(c), key);
  }

  // ----- what a laid-out stanza means -----

  /** The answer of the last piece of `pieces` whose left side is `g`; None when there is none. */
  function LastAnswer(pieces: seq<Piece>, g: string): Option<Option<string>> {
    if pieces == [] then None
    else
      var last := pieces[|pieces| - 1];
      if last.Pair? && last.lhs == g then
        Some(if last.rhs == "" || last.rhs == "*" then None else Some(last.rhs))
      else LastAnswer(pieces[..|pieces| - 1], g)
  }

  /** A list with at least one pair; one with none configures nothing. */
  predicate Speaks(pieces: seq<Piece>) {
    exists i | 0 <= i < |pieces| :: pieces[i].Pair?
  }

  /** What an operator's inbound list says about a remote group: the last pair naming it, else
      the last wildcard pair, else nothing. */
  function Says(pieces: seq<Piece>, g: string): Option<Option<string>> {
    match LastAnswer(pieces, g)
    case Some(answer) => Some(answer)
    case None => LastAnswer(pieces, "*")
  }

  lemma SpeaksStep(pieces: seq<Piece>)
    requires pieces != []
    ensures Speaks(pieces) <==> Speaks(pieces[..|pieces| - 1]) || pieces[|pieces| - 1].Pair?
  {}

  lemma TableStep(pieces: seq<Piece>)
    requires pieces != []
    ensures var before, after := InTableOf(EntriesOf(pieces[..|pieces| - 1], In)), InTableOf(EntriesOf(pieces, In));
      var last := pieces[|pieces| - 1];
      if last.Pair?
      then after == before[last.lhs := if last.rhs == "" || last.rhs == WILDCARD then None else Some(last.rhs)]
        && after != map[]
      else after == before
  {
    var init, last := pieces[..|pieces| - 1], pieces[|pieces| - 1];
    var es := EntriesOf(pieces, In);
    if last.Pair? {
      assert es[..|es| - 1] == EntriesOf(init, In);
      assert last.lhs in InTableOf(es);
    }
  }

  lemma {:induction false} TableSays(pieces: seq<Piece>, g: string)
    ensures At(InTableOf(EntriesOf(pieces, In)), g) == LastAnswer(pieces, g)
    ensures InTableOf(EntriesOf(pieces, In)) != map[] <==> Speaks(pieces)
  {
    if pieces != [] {
      TableSays(pieces[..|pieces| - 1], g);
      TableStep(pieces);
      SpeaksStep(pieces);
    }
  }

  lemma {:induction false} SilentAnswers(pieces: seq<Piece>, g: string)
    requires !Speaks(pieces)
    ensures LastAnswer(pieces, g) == None
  {
    if pieces != [] {
      SilentAnswers(pieces[..|pieces| - 1], g);
    }
  }

  lemma ReadAsParsed(pieces: seq<Piece>, raw: string, direction: Direction)
    requires Reads(pieces, raw)
    ensures ParsedOrEmpty(raw, direction) == EntriesOf(pieces, direction)
  {
    ParseFailsExactly(Split(raw, ','), direction);
    if !Mistyped(raw) {
      ParseInvertsRendering(pieces, direction);
    }
  }

  /** The inbound lookup in an operator's terms, for every text the maps may be. A stanza whose
      list names anything is decided by that list, else by the default list; where neither
      speaks, the peer's fallback opt-in lets the group through under its own name, and otherwise
      it is blocked. A list with a mistyped item names nothing. */
  lemma InboundMeaning(c: Config, i: nat, key: string, own: seq<Piece>, default: seq<Piece>, g: string)
    requires NoCollisions(c.peers) && i < |c.peers| && c.peers[i].enabled && key in Keys(c.peers[i])
    requires Reads(own, c.peers[i].groupMapIn) && Reads(default, c.defaultGroupMapIn)
    ensures Inbound(Build(c), key, g) ==
      match Says(if Speaks(own) then own else default, g)
      case Some(answer) => answer
      case None => if c.peers[i].fallbackWhenNoGroupMappings then Some(g) else None
  {
    ReadAsParsed(own, c.peers[i].groupMapIn, In);
    ReadAsParsed(default, c.defaultGroupMapIn, In);
    PeersDefaults(Defaults(c), c.peers);
    ClaimedRow(Defaults(c), c.peers, i, key);
    assert RowOf(Build(c), key) == OwnRow(c.peers[i]);
    TableSays(own, g);
    TableSays(own, WILDCARD);
    TableSays(default, g);
    TableSays(default, WILDCARD);
    if EntriesOf(default, In) == [] {
      assert !Speaks(default);
      SilentAnswers(default, g);
      SilentAnswers(default, WILDCARD);
    }
  }

  /** A stanza whose inbound map lacks its colon, with nothing else to go by, lets nothing in. */
  lemma ForgottenColon(c: Config, i: nat, key: string, g: string)
    requires NoCollisions(c.peers) && i < |c.peers| && c.peers[i].enabled && key in Keys(c.peers[i])
    requires c.peers[i].groupMapIn == "White" && c.defaultGroupMapIn == ""
    requires !c.peers[i].fallbackWhenNoGroupMappings
    ensures Inbound(Build(c), key, g).None?
  {
    var raw := c.peers[i].groupMapIn;
    SplitWithoutSep(raw, ',');
    StripTrimmed(raw);
    assert Colonless(Split(raw, ',')[0]);
    assert Split("", ',') == [""] && !Mistyped("");
    InboundMeaning(c, i, key, [], [], g);
  }

  /** A pair that fills an outbound table: the wildcard and the empty left side do not. */
  predicate Shares(piece: Piece) {
    piece.Pair? && piece.lhs != "" && piece.lhs != "*"
  }

  predicate SharesGroup(piece: Piece, g: string) {
    Shares(piece) && piece.lhs == g
  }

  predicate SharesAny(pieces: seq<Piece>) {
    exists i | 0 <= i < |pieces| :: Shares(pieces[i])
  }

  /** The right side of the last sharing pair for `g`; an empty one is a name like any other. */
  function LastShare(pieces: seq<Piece>, g: string): Option<string> {
    if pieces == [] then None
    else
      var last := pieces[|pieces| - 1];
      if SharesGroup(last, g) then Some(last.rhs) else LastShare(pieces[..|pieces| - 1], g)
  }

  lemma OutTableStep(pieces: seq<Piece>)
    requires pieces != []
    ensures var before, after := OutTableOf(EntriesOf(pieces[..|pieces| - 1], Out)), OutTableOf(EntriesOf(pieces, Out));
      var last := pieces[|pieces| - 1];
      if Shares(last) then after == before[last.lhs := last.rhs] && after != map[] else after == before
  {
    var init, last := pieces[..|pieces| - 1], pieces[|pieces| - 1];
    var es := EntriesOf(pieces, Out);
    if last.Entry(Out).Some? {
      assert es[..|es| - 1] == EntriesOf(init, Out);
    }
    if Shares(last) {
      assert last.lhs in OutTableOf(es);
    }
  }

  lemma SharesAnyStep(pieces: seq<Piece>)
    requires pieces != []
    ensures SharesAny(pieces) <==> SharesAny(pieces[..|pieces| - 1]) || Shares(pieces[|pieces| - 1])
  {}

  lemma {:induction false} OutTableSays(pieces: seq<Piece>, g: string)
    ensures At(OutTableOf(EntriesOf(pieces, Out)), g) == LastShare(pieces, g)
    ensures OutTableOf(EntriesOf(pieces, Out)) != map[] <==> SharesAny(pieces)
  {
    if pieces != [] {
      var init, last := pieces[..|pieces| - 1], pieces[|pieces| - 1];
      OutTableSays(init, g);
      OutTableStep(pieces);
      SharesAnyStep(pieces);
    }
  }

  /** The outbound lookup in an operator's terms: a stanza that shares any group by name is
      decided by its own list alone, otherwise the default list decides; there is no outbound
      wildcard and no fallback. */
  lemma OutboundMeaning(c: Config, i: nat, key: string, own: seq<Piece>, default: seq<Piece>, g: string)
    requires NoCollisions(c.peers) && i < |c.peers| && c.peers[i].enabled && key in Keys(c.peers[i])
    requires Reads(own, c.peers[i].groupMapOut) && Reads(default, c.defaultGroupMapOut)
    ensures Outbound(Build(c), key, g) == LastShare(if SharesAny(own) then own else default, g)
  {
    ReadAsParsed(own, c.peers[i].groupMapOut, Out);
    ReadAsParsed(default, c.defaultGroupMapOut, Out);
    PeersDefaults(Defaults(c), c.peers);
    ClaimedRow(Defaults(c), c.peers, i, key);
    assert RowOf(Build(c), key) == OwnRow(c.peers[i]);
    OutTableSays(own, g);
    OutTableSays(default, g);
  }

  /** When a group is blocked outbound, in an operator's terms: just when the deciding list has no
      pair for it. A pair with an empty right side does not block: the group is then shared, under
      the empty name, exactly when that pair is the last one for it. */
  lemma SharedAsEmptyExactly(c: Config, i: nat, key: string, own: seq<Piece>, default: seq<Piece>, g: string)
    requires NoCollisions(c.peers) && i < |c.peers| && c.peers[i].enabled && key in Keys(c.peers[i])
    requires Reads(own, c.peers[i].groupMapOut) && Reads(default, c.defaultGroupMapOut)
    ensures var deciding := if SharesAny(own) then own else default;
      && (Outbound(Build(c), key, g).None?
          <==> forall n | 0 <= n < |deciding| :: !SharesGroup(deciding[n], g))
      && (Outbound(Build(c), key, g) == Some("") <==> exists n :: LastSharing(deciding, g, n) && deciding[n].rhs == "")
  {
    OutboundMeaning(c, i, key, own, default, g);
    LastShareExactly(if SharesAny(own) then own else default, g, "");
  }

  /** Piece `n` is the last one that shares `g`. */
  predicate LastSharing(pieces: seq<Piece>, g: string, n: int) {
    && 0 <= n < |pieces| && SharesGroup(pieces[n], g)
    && forall m | n < m < |pieces| :: !SharesGroup(pieces[m], g)
  }

  lemma LastSharingStep(pieces: seq<Piece>, g: string, n: int)
    requires pieces != [] && !SharesGroup(pieces[|pieces| - 1], g)
    ensures LastSharing(pieces, g, n) <==> LastSharing(pieces[..|pieces| - 1], g, n)
  {
    var init := pieces[..|pieces| - 1];
    assert forall m | 0 <= m < |init| :: pieces[m] == init[m];
  }

  lemma {:induction false} LastShareExactly(pieces: seq<Piece>, g: string, r: string)
    ensures LastShare(pieces, g).None? <==> forall n | 0 <= n < |pieces| :: !SharesGroup(pieces[n], g)
    ensures LastShare(pieces, g) == Some(r) <==> exists n :: LastSharing(pieces, g, n) && pieces[n].rhs == r
  {
    if pieces != [] {
      var k := |pieces| - 1;
      var init := pieces[..k];
      assert forall n | 0 <= n < k :: pieces[n] == init[n];
      if SharesGroup(pieces[k], g) {
        assert LastSharing(pieces, g, k);
      } else {
        LastShareExactly(init, g, r);
        forall n ensures LastSharing(pieces, g, n) <==> LastSharing(init, g, n) {
          LastSharingStep(pieces, g, n);
        }
      }
    }
  }

  // ----- certificates in operators' terms -----

  predicate ListsDigest(items: seq<CertIdentity.Written>, d: CertIdentity.Digest) {
    exists k | 0 <= k < |items| :: items[k].Print? && items[k].digest == d
  }

  lemma {:induction false} DigestListed(items: seq<CertIdentity.Written>, d: CertIdentity.Digest)
    ensures CertIdentity.Format(d) in CertIdentity.Digests(items) <==> ListsDigest(items, d)
  {
    if items != [] {
      var k := |items| - 1;
      var init, last := items[..k], items[k];
      DigestListed(init, d);
      assert forall n | 0 <= n < k :: items[n] == init[n];
      if last.Print? {
        CertIdentity.FormatInjective(last.digest, d);
      }
    }
  }

  /** The setting is what the configuration makes of a list of digests an operator laid out. */
  predicate Lists(p: PeerConfig, items: seq<CertIdentity.Written>) {
    && items != [] && (forall n | 0 <= n < |items| :: items[n].Valid())
    && CertIdentity.ConfiguredFingerprints(Join(CertIdentity.WrittenTexts(items), ',')) == Ok(p.fingerprint)
  }

  /** From the operator's text to the policy: however the digests are spelled and laid out, a
      stanza's certificates are exactly those whose digests are listed, and each resolves to the
      stanza's key. */
  lemma WrittenCertificates(c: Config, i: nat, items: seq<CertIdentity.Written>, d: CertIdentity.Digest)
    requires NoCollisions(c.peers) && i < |c.peers| && c.peers[i].enabled && Lists(c.peers[i], items)
    ensures CertIdentity.Format(d) in Fingerprints(c.peers[i]) <==> ListsDigest(items, d)
    ensures ListsDigest(items, d) ==> At(Build(c).fingerprints, CertIdentity.Format(d)) == Some(PolicyKey(c.peers[i]))
  {
    CertIdentity.FingerprintListRoundTrip(items);
    DigestListed(items, d);
    FingerprintsResolve(c, CertIdentity.Format(d));
  }
}
