/** Group policy: the per-peer mapping tables, their lookup order, and the text form
    operators write them in. */
module Groups {
  import opened Wrappers
  import opened Text

  datatype Direction = In | Out | Both

  /** One mapping entry. A `localGroup` of None blocks. */
  datatype GroupEntry = GroupEntry(peerId: string, direction: Direction, remoteGroup: string,
                                   localGroup: Option<string>)

  type InTable = map<string, Option<string>>
  type OutTable = map<string, string>

  /** The registry's contents as a value. */
  datatype Tables = Tables(
    inbound: map<string, InTable>,
    outbound: map<string, OutTable>,
    fallback: map<string, bool>,
    defaultIn: Option<InTable>,
    defaultOut: Option<OutTable>,
    fingerprints: map<string, string>)

  const EMPTY := Tables(map[], map[], map[], None, None, map[])

  const WILDCARD := "*"

  // ----- lookup -----

  /** What a table says about a group: nothing, or its (possibly blocking) answer. */
  function Consult(table: InTable, group: string): Option<Option<string>> {
    if group in table then Some(table[group])
    else if WILDCARD in table then Some(table[WILDCARD])
    else None
  }

  /** The table that governs a peer: its own, or the default. */
  function Governing<T>(own: map<string, T>, default: Option<T>, peer: string): Option<T> {
    if peer in own then Some(own[peer]) else default
  }

  function Inbound(t: Tables, peer: string, group: string): Option<string> {
    var answer := match Governing(t.inbound, t.defaultIn, peer)
      case None => None
      case Some(table) => Consult(table, group);
    match answer
    case Some(mapped) => mapped
    case None => if peer in t.fallback && t.fallback[peer] then Some(group) else None
  }

  function Outbound(t: Tables, peer: string, group: string): Option<string> {
    match Governing(t.outbound, t.defaultOut, peer)
    case None => None
    case Some(table) => if group in table then Some(table[group]) else None
  }

  /** The local groups an event tagged with `remote` is admitted into; none means drop. An
      untagged event is admitted through the wildcard alone, and the fallback's echo of the
      wildcard is not a group. */
  function Admitted(t: Tables, peer: string, remote: set<string>): set<string> {
    if remote == {} then
      match Inbound(t, peer, WILDCARD)
      case None => {}
      case Some(local) => if local == WILDCARD then {} else {local}
    else
      set g | g in remote && Inbound(t, peer, g).Some? :: Inbound(t, peer, g).value
  }

  /** The remote groups that `local` is tagged with for a peer; none means do not send. */
  function Shared(t: Tables, peer: string, local: set<string>): set<string> {
    set g | g in local && Outbound(t, peer, g).Some? :: Outbound(t, peer, g).value
  }

  /** The same, on a list, duplicates kept. */
  function SharedList(t: Tables, peer: string, local: seq<string>): seq<string> {
    if local == [] then []
    else
      var rest := SharedList(t, peer, local[..|local| - 1]);
      match Outbound(t, peer, local[|local| - 1])
      case None => rest
      case Some(remote) => rest + [remote]
  }

  function Elements(s: seq<string>): set<string> {
    set i | 0 <= i < |s| :: s[i]
  }

  lemma ElementsAppend(s: seq<string>, x: string)
    ensures Elements(s + [x]) == Elements(s) + {x}
  {
    assert (s + [x])[|s|] == x;
    forall y | y in Elements(s) ensures y in Elements(s + [x]) {
      var i :| 0 <= i < |s| && s[i] == y;
      assert (s + [x])[i] == y;
    }
  }

  /** The list and the set form carry the same groups, whatever the order of the list. */
  lemma {:induction false} SharedListElements(t: Tables, peer: string, local: seq<string>)
    ensures Elements(SharedList(t, peer, local)) == Shared(t, peer, Elements(local))
    ensures SharedList(t, peer, local) == [] <==> Shared(t, peer, Elements(local)) == {}
  {
    if local != [] {
      var init, last := local[..|local| - 1], local[|local| - 1];
      SharedListElements(t, peer, init);
      ElementsAppend(init, last);
      assert local == init + [last];
      var rest := SharedList(t, peer, init);
      match Outbound(t, peer, last)
      case None =>
        assert Shared(t, peer, Elements(local)) == Shared(t, peer, Elements(init));
      case Some(remote) =>
        ElementsAppend(rest, remote);
        assert Shared(t, peer, Elements(local)) == Shared(t, peer, Elements(init)) + {remote};
    }
  }

  /** And in the order of the list: each group in turn adds its shared name, if it has one. */
  lemma SharedInOrder(t: Tables, peer: string, local: seq<string>, g: string)
    ensures SharedList(t, peer, local + [g])
      == SharedList(t, peer, local) + match Outbound(t, peer, g) case None => [] case Some(remote) => [remote]
  {
    assert (local + [g])[..|local|] == local;
  }

  // ----- updates -----

  function SetEntry<T>(tables: map<string, map<string, T>>, peer: string, key: string, value: T)
    : map<string, map<string, T>>
  {
    tables[peer := (if peer in tables then tables[peer] else map[])[key := value]]
  }

  function WithEntry(t: Tables, e: GroupEntry): Tables {
    var t1 := if e.direction.Out? then t
              else t.(inbound := SetEntry(t.inbound, e.peerId, e.remoteGroup, e.localGroup));
    if e.direction.In? || e.localGroup.None? then t1
    else t1.(outbound := SetEntry(t1.outbound, e.peerId, e.localGroup.value, e.remoteGroup))
  }

  /** The default inbound table a list of entries makes. */
  function InTableOf(entries: seq<GroupEntry>): InTable {
    if entries == [] then map[]
    else
      var rest, e := InTableOf(entries[..|entries| - 1]), entries[|entries| - 1];
      if e.direction.Out? then rest else rest[e.remoteGroup := e.localGroup]
  }

  function OutTableOf(entries: seq<GroupEntry>): OutTable {
    if entries == [] then map[]
    else
      var rest, e := OutTableOf(entries[..|entries| - 1]), entries[|entries| - 1];
      if e.direction.In? || e.localGroup.None? then rest else rest[e.localGroup.value := e.remoteGroup]
  }

  /** Entry `i` is the last one that speaks of remote group `g`. */
  predicate LastIn(entries: seq<GroupEntry>, g: string, i: int) {
    && 0 <= i < |entries| && !entries[i].direction.Out? && entries[i].remoteGroup == g
    && forall j | i < j < |entries| :: entries[j].direction.Out? || entries[j].remoteGroup != g
  }

  predicate LastOut(entries: seq<GroupEntry>, g: string, i: int) {
    && 0 <= i < |entries| && !entries[i].direction.In? && entries[i].localGroup == Some(g)
    && forall j | i < j < |entries| :: entries[j].direction.In? || entries[j].localGroup != Some(g)
  }

  /** The inbound table is last-writer-wins: it has a row for exactly the groups some entry
      names, and the row is the last such entry's. */
  lemma {:induction false} InTableIsLastWriter(entries: seq<GroupEntry>, g: string)
    ensures g in InTableOf(entries) <==> exists i :: LastIn(entries, g, i)
    ensures forall i :: LastIn(entries, g, i) ==>
      g in InTableOf(entries) && InTableOf(entries)[g] == entries[i].localGroup
  {
    if entries != [] {
      var n := |entries| - 1;
      var init, e := entries[..n], entries[n];
      InTableIsLastWriter(init, g);
      if !e.direction.Out? && e.remoteGroup == g {
        assert LastIn(entries, g, n);
      } else {
        forall i ensures LastIn(entries, g, i) <==> LastIn(init, g, i) {
          if LastIn(init, g, i) {
            assert forall j | i < j < n :: entries[j] == init[j];
          }
        }
      }
    }
  }

  lemma {:induction false} OutTableIsLastWriter(entries: seq<GroupEntry>, g: string)
    ensures g in OutTableOf(entries) <==> exists i :: LastOut(entries, g, i)
    ensures forall i :: LastOut(entries, g, i) ==>
      g in OutTableOf(entries) && OutTableOf(entries)[g] == entries[i].remoteGroup
  {
    if entries != [] {
      var n := |entries| - 1;
      var init, e := entries[..n], entries[n];
      OutTableIsLastWriter(init, g);
      if !e.direction.In? && e.localGroup == Some(g) {
        assert LastOut(entries, g, n);
      } else {
        forall i ensures LastOut(entries, g, i) <==> LastOut(init, g, i) {
          if LastOut(init, g, i) {
            assert forall j | i < j < n :: entries[j] == init[j];
          }
        }
      }
    }
  }

  /** What adding an entry does to inbound lookups: unless it is outbound only, its remote group
      now maps to its local group, or to a block. No other peer's lookups change, nor this peer's
      of other groups, if it has a table already and the entry is no wildcard. */
  lemma AddedEntryInbound(t: Tables, e: GroupEntry, peer: string, g: string)
    ensures !e.direction.Out? ==> Inbound(WithEntry(t, e), e.peerId, e.remoteGroup) == e.localGroup
    ensures
      (peer != e.peerId || e.direction.Out? || (peer in t.inbound && e.remoteGroup != "*" && g != e.remoteGroup))
      ==> Inbound(WithEntry(t, e), peer, g) == Inbound(t, peer, g)
  {}

  /** And to outbound ones: unless it is inbound only or a block, its local group now maps to its
      remote group. No other lookups change, but that a peer that had no table of its own no
      longer sees the default one. */
  lemma AddedEntryOutbound(t: Tables, e: GroupEntry, peer: string, g: string)
    ensures !e.direction.In? && e.localGroup.Some? ==>
      Outbound(WithEntry(t, e), e.peerId, e.localGroup.value) == Some(e.remoteGroup)
    ensures
      (peer != e.peerId || e.direction.In? || e.localGroup.None? || (peer in t.outbound && e.localGroup != Some(g)))
      ==> Outbound(WithEntry(t, e), peer, g) == Outbound(t, peer, g)
    ensures peer == e.peerId && !e.direction.In? && e.localGroup.Some? && peer !in t.outbound && e.localGroup != Some(g)
      ==> Outbound(WithEntry(t, e), peer, g).None?
  {}

  // ----- moving a peer to another key -----

  predicate Known(t: Tables, peer: string) {
    peer in t.inbound || peer in t.outbound || peer in t.fallback
  }

  function Move<T>(m: map<string, T>, from: string, to: string): map<string, T> {
    if from in m then (m - {from})[to := m[from]] else m
  }

  function Rekeyed(t: Tables, oldId: string, newId: string): Tables {
    if oldId == newId || oldId == "" || Known(t, newId) then t
    else t.(inbound := Move(t.inbound, oldId, newId),
            outbound := Move(t.outbound, oldId, newId),
            fallback := Move(t.fallback, oldId, newId))
  }

  /** The two keys are governed by the same tables. */
  ghost predicate SamePolicy(t: Tables, peer: string, t': Tables, peer': string) {
    && (forall g :: Inbound(t, peer, g) == Inbound(t', peer', g))
    && (forall g :: Outbound(t, peer, g) == Outbound(t', peer', g))
  }

  /** Re-keying is all or nothing. It is refused exactly when the new key is taken, the keys
      are equal, or the old key is empty; then nothing changes. Otherwise the new key maps
      every group as the old one did and the old key is left with no entry in any table.
      Either way every third peer maps every group as before, and fingerprints stay put. */
  lemma RekeyMovesOrRefuses(t: Tables, oldId: string, newId: string)
    ensures var t' := Rekeyed(t, oldId, newId);
      && t'.fingerprints == t.fingerprints && t'.defaultIn == t.defaultIn && t'.defaultOut == t.defaultOut
      && (if oldId == newId || oldId == "" || newId in t.inbound || newId in t.outbound || newId in t.fallback
          then t' == t
          else oldId !in t'.inbound && oldId !in t'.outbound && oldId !in t'.fallback
               && SamePolicy(t, oldId, t', newId))
    ensures forall third | third != oldId && third != newId ::
      SamePolicy(t, third, Rekeyed(t, oldId, newId), third)
  {
    var t' := Rekeyed(t, oldId, newId);
    if !(oldId == newId || oldId == "" || Known(t, newId)) {
      assert Governing(t'.inbound, t'.defaultIn, newId) == Governing(t.inbound, t.defaultIn, oldId);
      assert Governing(t'.outbound, t'.defaultOut, newId) == Governing(t.outbound, t.defaultOut, oldId);
      forall g
        ensures Inbound(t, oldId, g) == Inbound(t', newId, g)
        ensures Outbound(t, oldId, g) == Outbound(t', newId, g)
      {}
    }
    forall third | third != oldId && third != newId
      ensures SamePolicy(t, third, t', third)
    {
      assert Governing(t'.inbound, t'.defaultIn, third) == Governing(t.inbound, t.defaultIn, third);
      assert Governing(t'.outbound, t'.defaultOut, third) == Governing(t.outbound, t.defaultOut, third);
      assert third in t'.fallback <==> third in t.fallback;
      forall g
        ensures Inbound(t, third, g) == Inbound(t', third, g)
        ensures Outbound(t, third, g) == Outbound(t', third, g)
      {}
    }
  }

  /** Re-keying back restores the registry, when it was not refused the first time. */
  lemma RekeyRoundTrip(t: Tables, oldId: string, newId: string)
    requires oldId != "" && newId != "" && !Known(t, newId)
    ensures Rekeyed(Rekeyed(t, oldId, newId), newId, oldId) == t
  {
    if oldId != newId {
      var t' := Rekeyed(t, oldId, newId);
      assert Move(t'.inbound, newId, oldId) == t.inbound;
      assert Move(t'.outbound, newId, oldId) == t.outbound;
      assert Move(t'.fallback, newId, oldId) == t.fallback;
    }
  }

  // ----- the registry object -----

  class FederateGroupRegistry {
    var inbound: map<string, InTable>
    var outbound: map<string, OutTable>
    var fallbackAllow: map<string, bool>
    var defaultInbound: Option<InTable>
    var defaultOutbound: Option<OutTable>
    var fingerprintToPeer: map<string, string>

    ghost function View(): Tables
      reads this
    {
      Tables(inbound, outbound, fallbackAllow, defaultInbound, defaultOutbound, fingerprintToPeer)
    }

    constructor ()
      ensures View() == EMPTY
    {
      inbound, outbound, fallbackAllow := map[], map[], map[];
      defaultInbound, defaultOutbound, fingerprintToPeer := None, None, map[];
    }

    method AddPeerMap(entry: GroupEntry)
      modifies this
      ensures View() == WithEntry(old(View()), entry)
    {
      if entry.direction.In? || entry.direction.Both? {
        inbound := SetEntry(inbound, entry.peerId, entry.remoteGroup, entry.localGroup);
      }
      if entry.direction.Out? || entry.direction.Both? {
        if entry.localGroup.Some? {
          outbound := SetEntry(outbound, entry.peerId, entry.localGroup.value, entry.remoteGroup);
        }
      }
    }

    method SetFallbackAllow(peer: string, enabled: bool)
      modifies this
      ensures View() == old(View()).(fallback := old(View()).fallback[peer := enabled])
    {
      fallbackAllow := fallbackAllow[peer := enabled];
    }

    method SetDefaultInMap(entries: seq<GroupEntry>)
      modifies this
      ensures View() == old(View()).(defaultIn := Some(InTableOf(entries)))
    {
      var table: InTable := map[];
      for i := 0 to |entries|
        invariant table == InTableOf(entries[..i])
      {
        assert entries[..i + 1][..i] == entries[..i];
        if entries[i].direction.In? || entries[i].direction.Both? {
          table := table[entries[i].remoteGroup := entries[i].localGroup];
        }
      }
      assert entries[..|entries|] == entries;
      defaultInbound := Some(table);
    }

    method SetDefaultOutMap(entries: seq<GroupEntry>)
      modifies this
      ensures View() == old(View()).(defaultOut := Some(OutTableOf(entries)))
    {
      var table: OutTable := map[];
      for i := 0 to |entries|
        invariant table == OutTableOf(entries[..i])
      {
        assert entries[..i + 1][..i] == entries[..i];
        if !entries[i].direction.In? && entries[i].localGroup.Some? {
          table := table[entries[i].localGroup.value := entries[i].remoteGroup];
        }
      }
      assert entries[..|entries|] == entries;
      defaultOutbound := Some(table);
    }

    method RegisterFingerprint(fingerprint: string, peer: string)
      modifies this
      ensures View() == if fingerprint == "" then old(View())
                        else old(View()).(fingerprints := old(View()).fingerprints[fingerprint := peer])
    {
      if fingerprint == "" {
        return;
      }
      fingerprintToPeer := fingerprintToPeer[fingerprint := peer];
    }

    function ResolvePeerIdByFingerprint(fingerprint: string): Option<string>
      reads this
    {
      if fingerprint in fingerprintToPeer then Some(fingerprintToPeer[fingerprint]) else None
    }

    method RekeyPeer(oldId: string, newId: string)
      modifies this
      ensures View() == Rekeyed(old(View()), oldId, newId)
    {
      if oldId == newId || oldId == "" {
        return;
      }
      var collision := newId in inbound || newId in outbound || newId in fallbackAllow;
      if collision {
        return;
      }
      if oldId in inbound {
        inbound := (inbound - {oldId})[newId := inbound[oldId]];
      }
      if oldId in outbound {
        outbound := (outbound - {oldId})[newId := outbound[oldId]];
      }
      if oldId in fallbackAllow {
        fallbackAllow := (fallbackAllow - {oldId})[newId := fallbackAllow[oldId]];
      }
    }

    method MapInbound(peer: string, remoteGroup: string) returns (local: Option<string>)
      ensures local == Inbound(View(), peer, remoteGroup)
    {
      if peer in inbound {
        var table := inbound[peer];
        if remoteGroup in table {
          return table[remoteGroup];
        }
        if WILDCARD in table {
          return table[WILDCARD];
        }
      } else if defaultInbound.Some? {
        if remoteGroup in defaultInbound.value {
          return defaultInbound.value[remoteGroup];
        }
        if WILDCARD in defaultInbound.value {
          return defaultInbound.value[WILDCARD];
        }
      }
      if peer in fallbackAllow && fallbackAllow[peer] {
        return Some(remoteGroup);
      }
      return None;
    }

    method MapInboundGroups(peer: string, remoteGroups: seq<string>) returns (locals: Option<set<string>>)
      ensures var admitted := Admitted(View(), peer, Elements(remoteGroups));
        locals == if admitted == {} then None else Some(admitted)
    {
      if |remoteGroups| == 0 {
        var local := MapInbound(peer, WILDCARD);
        if local == Some(WILDCARD) {
          local := None;
        }
        return if local.Some? then Some({local.value}) else None;
      }
      assert remoteGroups[0] in Elements(remoteGroups);
      var result: set<string> := {};
      for i := 0 to |remoteGroups|
        invariant result == set j | 0 <= j < i && Inbound(View(), peer, remoteGroups[j]).Some?
                                :: Inbound(View(), peer, remoteGroups[j]).value
      {
        var local := MapInbound(peer, remoteGroups[i]);
        if local.Some? {
          result := result + {local.value};
        }
      }
      assert result == Admitted(View(), peer, Elements(remoteGroups)) by {
        forall x | x in result ensures x in Admitted(View(), peer, Elements(remoteGroups)) {
          var j :| 0 <= j < |remoteGroups| && Inbound(View(), peer, remoteGroups[j]) == Some(x);
          assert remoteGroups[j] in Elements(remoteGroups);
        }
      }
      return if result == {} then None else Some(result);
    }

    method MapOutbound(peer: string, localGroup: string) returns (remote: Option<string>)
      ensures remote == Outbound(View(), peer, localGroup)
    {
      if peer !in outbound {
        if defaultOutbound.Some? {
          return if localGroup in defaultOutbound.value then Some(defaultOutbound.value[localGroup]) else None;
        }
        return None;
      }
      return if localGroup in outbound[peer] then Some(outbound[peer][localGroup]) else None;
    }

    method MapOutboundGroups(peer: string, localGroups: seq<string>) returns (result: seq<string>)
      ensures result == SharedList(View(), peer, localGroups)
      ensures Elements(result) == Shared(View(), peer, Elements(localGroups))
    {
      result := [];
      for i := 0 to |localGroups|
        invariant result == SharedList(View(), peer, localGroups[..i])
      {
        assert localGroups[..i + 1][..i] == localGroups[..i];
        var remote := MapOutbound(peer, localGroups[i]);
        if remote.Some? {
          result := result + [remote.value];
        }
      }
      assert localGroups[..|localGroups|] == localGroups;
      SharedListElements(View(), peer, localGroups);
    }
  }

  // ----- the text form -----

  /** A token without a colon where one is needed. */
  datatype ParseError = MissingColon(token: string)

  /** The entry one trimmed token denotes; an outbound wildcard denotes none. */
  function EntryOf(token: string, direction: Direction): Option<GroupEntry>
    requires ':' in token
  {
    var (l, r) := Partition(token, ':');
    PairEntry(Strip(l), Strip(r), direction)
  }

  function PairEntry(lhs: string, rhs: string, direction: Direction): Option<GroupEntry> {
    if direction.Out? then
      if lhs == WILDCARD then None
      else Some(GroupEntry("", Out, rhs, if lhs == "" then None else Some(lhs)))
    else
      Some(GroupEntry("", direction, lhs, if rhs == "" || rhs == WILDCARD then None else Some(rhs)))
  }

  function Appended(entries: seq<GroupEntry>, entry: Option<GroupEntry>): seq<GroupEntry> {
    match entry case None => entries case Some(e) => entries + [e]
  }

  /** The entries of the tokens in order, or the first token that has no colon. */
  function ParseTokens(tokens: seq<string>, direction: Direction): Result<seq<GroupEntry>, ParseError> {
    if tokens == [] then Ok([])
    else match ParseTokens(tokens[..|tokens| - 1], direction)
      case Err(e) => Err(e)
      case Ok(rest) =>
        var token := Strip(tokens[|tokens| - 1]);
        if token == "" then Ok(rest)
        else if ':' !in token then Err(MissingColon(token))
        else Ok(Appended(rest, EntryOf(token, direction)))
  }

  function Parse(raw: string, direction: Direction): Result<seq<GroupEntry>, ParseError> {
    ParseTokens(Split(raw, ','), direction)
  }

  lemma TokenStep(tokens: seq<string>, i: nat, direction: Direction)
    requires i < |tokens| && ParseTokens(tokens[..i], direction).Ok?
    ensures var (rest, token) := (ParseTokens(tokens[..i], direction).value, Strip(tokens[i]));
      ParseTokens(tokens[..i + 1], direction)
      == if token == "" then Ok(rest) else if ':' !in token then Err(MissingColon(token))
         else Ok(Appended(rest, EntryOf(token, direction)))
  {
    assert tokens[..i + 1][..i] == tokens[..i];
  }

  method ParseGroupMap(raw: string, direction: Direction) returns (result: Result<seq<GroupEntry>, ParseError>)
    ensures result == Parse(raw, direction)
  {
    var tokens := Split(raw, ',');
    var entries: seq<GroupEntry> := [];
    for i := 0 to |tokens|
      invariant ParseTokens(tokens[..i], direction) == Ok(entries)
    {
      TokenStep(tokens, i, direction);
      var token := Strip(tokens[i]);
      if token == "" {
        continue;
      }
      if ':' !in token {
        ParseTokensErrPersists(tokens, i + 1, direction);
        return Err(MissingColon(token));
      }
      var (l, r) := Partition(token, ':');
      var lhs, rhs := Strip(l), Strip(r);
      if direction.In? || direction.Both? {
        var local := None;
        if rhs != "" && rhs != WILDCARD {
          local := Some(rhs);
        }
        entries := entries + [GroupEntry("", direction, lhs, local)];
      } else if lhs != WILDCARD {
        entries := entries + [GroupEntry("", Out, rhs, if lhs == "" then None else Some(lhs))];
      }
    }
    assert tokens[..|tokens|] == tokens;
    return Ok(entries);
  }

  lemma {:induction false} ParseTokensErrPersists(tokens: seq<string>, i: nat, direction: Direction)
    requires i <= |tokens| && ParseTokens(tokens[..i], direction).Err?
    ensures ParseTokens(tokens, direction) == ParseTokens(tokens[..i], direction)
    decreases |tokens|
  {
    if i == |tokens| {
      assert tokens[..i] == tokens;
    } else {
      var init := tokens[..|tokens| - 1];
      assert init[..i] == tokens[..i];
      ParseTokensErrPersists(init, i, direction);
    }
  }

  /** A token that is not blank and has no colon. */
  predicate Colonless(token: string) {
    Strip(token) != "" && ':' !in Strip(token)
  }

  /** Parsing is refused exactly when some non-blank token lacks a colon. */
  lemma {:induction false} ParseFailsExactly(tokens: seq<string>, direction: Direction)
    ensures ParseTokens(tokens, direction).Err? <==> exists i :: 0 <= i < |tokens| && Colonless(tokens[i])
  {
    if tokens != [] {
      var n := |tokens| - 1;
      var init := tokens[..n];
      ParseFailsExactly(init, direction);
      if ParseTokens(init, direction).Err? {
        var i :| 0 <= i < n && Colonless(init[i]);
        assert Colonless(tokens[i]);
      } else {
        assert forall i | 0 <= i < n :: !Colonless(tokens[i]) by {
          assert forall i | 0 <= i < n :: tokens[i] == init[i];
        }
        assert ParseTokens(tokens, direction).Err? <==> Colonless(tokens[n]);
      }
    }
  }

  /** A piece of a group map as an operator may lay it out: blanks, or a pair with blanks
      anywhere around its two names. */
  datatype Piece =
    | Gap(pad: string)
    | Pair(p1: string, lhs: string, p2: string, p3: string, rhs: string, p4: string)
  {
    predicate Valid() {
      match this
      case Gap(pad) => AllSpace(pad)
      case Pair(_, _, _, _, _, _) =>
        && AllSpace(p1) && AllSpace(p2) && AllSpace(p3) && AllSpace(p4)
        && Trimmed(lhs) && Trimmed(rhs)
        && ',' !in lhs && ':' !in lhs && ',' !in rhs
    }

    function Text(): string {
      match this
      case Gap(pad) => pad
      case Pair(_, _, _, _, _, _) => p1 + lhs + p2 + ":" + p3 + rhs + p4
    }

    function Entry(direction: Direction): Option<GroupEntry> {
      match this
      case Gap(_) => None
      case Pair(_, _, _, _, _, _) => PairEntry(lhs, rhs, direction)
    }
  }

  function Texts(pieces: seq<Piece>): seq<string> {
    seq(|pieces|, i requires 0 <= i < |pieces| => pieces[i].Text())
  }

  function EntriesOf(pieces: seq<Piece>, direction: Direction): seq<GroupEntry> {
    if pieces == [] then []
    else Appended(EntriesOf(pieces[..|pieces| - 1], direction), pieces[|pieces| - 1].Entry(direction))
  }

  lemma {:induction false} TrimLeftUpTo(a: string, c: char, b: string)
    requires !IsSpace(c)
    ensures TrimLeft(a + [c] + b) == TrimLeft(a) + [c] + b
  {
    var s := a + [c] + b;
    if a != "" && IsSpace(a[0]) {
      TrimLeftUpTo(a[1..], c, b);
      assert s[1..] == a[1..] + [c] + b;
    } else {
      assert s[0] == if a == "" then c else a[0];
    }
  }

  lemma {:induction false} TrimRightDownTo(a: string, c: char, b: string)
    requires !IsSpace(c)
    ensures TrimRight(a + [c] + b) == a + [c] + TrimRight(b)
  {
    var s := a + [c] + b;
    if b != "" && IsSpace(b[|b| - 1]) {
      TrimRightDownTo(a, c, b[..|b| - 1]);
      assert s[..|s| - 1] == a + [c] + b[..|b| - 1];
    } else {
      assert s[|s| - 1] == if b == "" then c else b[|b| - 1];
    }
  }

  lemma TrimLeftOfPadded(p: string, core: string, q: string)
    requires AllSpace(p) && AllSpace(q) && Trimmed(core)
    ensures TrimLeft(p + core + q) == if core == "" then "" else core + q
  {
    assert p + core + q == p + (core + q);
    TrimLeftPadded(p, core + q);
    if core == "" {
      assert core + q == q + "";
      TrimLeftPadded(q, "");
    }
  }

  lemma TrimRightOfPadded(p: string, core: string, q: string)
    requires AllSpace(p) && AllSpace(q) && Trimmed(core)
    ensures TrimRight(p + core + q) == if core == "" then "" else p + core
  {
    TrimRightPadded(p + core, q);
    if core == "" {
      assert p + core == "" + p;
      TrimRightPadded("", p);
    }
  }

  /** Stripping a laid-out pair leaves its two names around the colon, with blanks on the
      inner sides at most. */
  lemma StrippedPair(p1: string, lhs: string, p2: string, p3: string, rhs: string, p4: string)
    requires AllSpace(p1) && AllSpace(p2) && AllSpace(p3) && AllSpace(p4) && Trimmed(lhs) && Trimmed(rhs)
    ensures Strip(p1 + lhs + p2 + ":" + p3 + rhs + p4)
      == (if lhs == "" then "" else lhs + p2) + ":" + (if rhs == "" then "" else p3 + rhs)
  {
    var a, b := p1 + lhs + p2, p3 + rhs + p4;
    assert p1 + lhs + p2 + ":" + p3 + rhs + p4 == a + [':'] + b;
    TrimLeftUpTo(a, ':', b);
    TrimLeftOfPadded(p1, lhs, p2);
    TrimRightDownTo(TrimLeft(a), ':', b);
    TrimRightOfPadded(p3, rhs, p4);
  }

  lemma StripInnerSides(lhs: string, p2: string, p3: string, rhs: string)
    requires AllSpace(p2) && AllSpace(p3) && Trimmed(lhs) && Trimmed(rhs)
    ensures Strip(if lhs == "" then "" else lhs + p2) == lhs
    ensures Strip(if rhs == "" then "" else p3 + rhs) == rhs
  {
    StripPadded("", lhs, p2);
    assert lhs + p2 == "" + lhs + p2;
    StripPadded(p3, rhs, "");
    assert p3 + rhs == p3 + rhs + "";
  }

  /** One laid-out pair is read as the entry of its two names. */
  lemma PieceParses(piece: Piece, direction: Direction)
    requires piece.Valid() && piece.Pair?
    ensures var token := Strip(piece.Text());
      token != "" && ':' in token && EntryOf(token, direction) == piece.Entry(direction)
  {
    var Pair(p1, lhs, p2, p3, rhs, p4) := piece;
    var l := if lhs == "" then "" else lhs + p2;
    var r := if rhs == "" then "" else p3 + rhs;
    StrippedPair(p1, lhs, p2, p3, rhs, p4);
    PartitionAt(l, ':', r);
    StripInnerSides(lhs, p2, p3, rhs);
  }

  lemma {:induction false} TokensParse(pieces: seq<Piece>, direction: Direction)
    requires forall i | 0 <= i < |pieces| :: pieces[i].Valid()
    ensures ParseTokens(Texts(pieces), direction) == Ok(EntriesOf(pieces, direction))
  {
    if pieces != [] {
      var init, last := pieces[..|pieces| - 1], pieces[|pieces| - 1];
      TokensParse(init, direction);
      assert Texts(pieces)[..|pieces| - 1] == Texts(init);
      if last.Gap? {
        StripPadded(last.pad, "", "");
        assert last.pad == last.pad + "" + "";
      } else {
        PieceParses(last, direction);
      }
    }
  }

  /** Reading back a laid-out list returns exactly its pairs, in order, in either direction,
      with any blanks and empty items thrown in: blocks (empty or `*` right sides) become
      None, and outbound wildcards denote nothing. */
  lemma ParseInvertsRendering(pieces: seq<Piece>, direction: Direction)
    requires forall i | 0 <= i < |pieces| :: pieces[i].Valid()
    ensures Parse(Join(Texts(pieces), ','), direction) == Ok(EntriesOf(pieces, direction))
  {
    var texts := Texts(pieces);
    if pieces == [] {
      assert Split("", ',') == [""];
      assert Strip("") == "";
      assert [""][..0] == [];
      assert ParseTokens([""], direction) == Ok([]);
    } else {
      forall i | 0 <= i < |texts| ensures ',' !in texts[i] {
        assert pieces[i].Valid();
      }
      SplitJoin(texts, ',');
      TokensParse(pieces, direction);
    }
  }

  predicate Plain(piece: Piece, direction: Direction) {
    && piece.Valid() && piece.Pair? && piece.rhs != "" && piece.rhs != WILDCARD
    && (direction.Out? ==> piece.lhs != "" && piece.lhs != WILDCARD)
  }

  function PlainEntry(piece: Piece, direction: Direction): GroupEntry
    requires Plain(piece, direction)
  {
    if direction.Out? then GroupEntry("", Out, piece.rhs, Some(piece.lhs))
    else GroupEntry("", direction, piece.lhs, Some(piece.rhs))
  }

  /** A plain comma-joined list of mappings, with neither blocks nor wildcards on the sides
      where they mean something else, is read back as those very pairs. */
  lemma {:induction false} PlainPairsRoundTrip(pieces: seq<Piece>, direction: Direction)
    requires forall i | 0 <= i < |pieces| :: Plain(pieces[i], direction)
    ensures |EntriesOf(pieces, direction)| == |pieces|
    ensures forall i | 0 <= i < |pieces| :: EntriesOf(pieces, direction)[i] == PlainEntry(pieces[i], direction)
  {
    if pieces != [] {
      var n := |pieces| - 1;
      PlainPairsRoundTrip(pieces[..n], direction);
      PlainPair(pieces[n], direction);
      EntriesSnoc(pieces, direction, PlainEntry(pieces[n], direction));
    }
  }

  lemma EntriesSnoc(pieces: seq<Piece>, direction: Direction, last: GroupEntry)
    requires pieces != [] && pieces[|pieces| - 1].Entry(direction) == Some(last)
    ensures EntriesOf(pieces, direction) == EntriesOf(pieces[..|pieces| - 1], direction) + [last]
  {}

  lemma PlainPair(piece: Piece, direction: Direction)
    requires Plain(piece, direction)
    ensures piece.Entry(direction) == Some(PlainEntry(piece, direction))
  {}

  /** An empty right side blocks inbound, and does not outbound: it is a name like any other. */
  lemma EmptyRightSideParses(g: string)
    requires Trimmed(g) && ',' !in g && ':' !in g && g != "" && g != WILDCARD
    ensures Parse(g + ":", In) == Ok([GroupEntry("", In, g, None)])
    ensures Parse(g + ":", Out) == Ok([GroupEntry("", Out, "", Some(g))])
  {
    var piece := Pair("", g, "", "", "", "");
    assert piece.Text() == g + ":";
    assert [piece][..0] == [];
    assert Texts([piece]) == [g + ":"] && Join([g + ":"], ',') == g + ":";
    ParseInvertsRendering([piece], In);
    ParseInvertsRendering([piece], Out);
    assert EntriesOf([piece], In) == [GroupEntry("", In, g, None)];
    assert EntriesOf([piece], Out) == [GroupEntry("", Out, "", Some(g))];
  }

  lemma AllSpaceConcat(a: string, b: string)
    requires AllSpace(a) && AllSpace(b)
    ensures AllSpace(a + b)
  {}

  /** Any token but a colonless one is a pair or a gap, laid out somehow. */
  lemma TokenIsPiece(token: string) returns (piece: Piece)
    requires ',' !in token && !Colonless(token)
    ensures piece.Valid() && piece.Text() == token
  {
    var l, r := StripResult(token);
    var core := Strip(token);
    if core == "" {
      assert token == l + r;
      AllSpaceConcat(l, r);
      piece := Gap(token);
    } else {
      assert forall c | c in core :: c in token;
      PartitionResult(core, ':');
      var (a, b) := Partition(core, ':');
      piece := PairOf(l, a, b, r);
      assert token == l + (a + [':'] + b) + r;
    }
  }

  lemma PairOf(l: string, a: string, b: string, r: string) returns (piece: Piece)
    requires AllSpace(l) && AllSpace(r) && ',' !in a && ':' !in a && ',' !in b
    ensures piece.Valid() && piece.Text() == l + (a + [':'] + b) + r
  {
    var p, q := StripResult(a);
    var p', q' := StripResult(b);
    assert forall c | c in Strip(a) :: c in a;
    assert forall c | c in Strip(b) :: c in b;
    AllSpaceConcat(l, p);
    AllSpaceConcat(q', r);
    piece := Pair(l + p, Strip(a), q, p', Strip(b), q' + r);
    Regrouped(l, p, Strip(a), q, p', Strip(b), q', r);
  }

  lemma Regrouped(l: string, p: string, a: string, q: string, p': string, b: string, q': string, r: string)
    ensures (l + p) + a + q + ":" + p' + b + (q' + r) == l + ((p + a + q) + [':'] + (p' + b + q')) + r
  {
    var left, right := p + a + q, p' + b + q';
    assert (l + p) + a + q == l + left;
    assert l + left + ":" + p' + b + (q' + r) == l + left + ":" + right + r;
    assert l + left + ":" + right + r == l + (left + [':'] + right) + r;
  }

  lemma {:induction false} TokensArePieces(tokens: seq<string>) returns (pieces: seq<Piece>)
    requires forall i | 0 <= i < |tokens| :: ',' !in tokens[i] && !Colonless(tokens[i])
    ensures |pieces| == |tokens| && Texts(pieces) == tokens
    ensures forall i | 0 <= i < |pieces| :: pieces[i].Valid()
  {
    pieces := [];
    if tokens != [] {
      var n := |tokens| - 1;
      var init := TokensArePieces(tokens[..n]);
      var piece := TokenIsPiece(tokens[n]);
      pieces := init + [piece];
      assert Texts(pieces) == Texts(init) + [piece.Text()];
    }
  }

  /** Some item has no colon where one is needed. */
  predicate Mistyped(raw: string) {
    exists k | 0 <= k < |Split(raw, ',')| :: Colonless(Split(raw, ',')[k])
  }

  /** How a map reads: as the pairs it lays out, or, if an item is mistyped, as none at all. */
  predicate Reads(pieces: seq<Piece>, raw: string) {
    if Mistyped(raw) then pieces == []
    else (forall i | 0 <= i < |pieces| :: pieces[i].Valid()) && raw == Join(Texts(pieces), ',')
  }

  /** Every text reads somehow. */
  lemma EveryTextReads(raw: string) returns (pieces: seq<Piece>)
    ensures Reads(pieces, raw)
  {
    if Mistyped(raw) {
      pieces := [];
    } else {
      SplitPieces(raw, ',');
      JoinSplit(raw, ',');
      pieces := TokensArePieces(Split(raw, ','));
    }
  }

  /** A map as operators write it. */
  lemma TwoPairs(text: string)
    requires text == "Red:Red, Blue:Blue"
    ensures Parse(text, In) == Ok([GroupEntry("", In, "Red", Some("Red")), GroupEntry("", In, "Blue", Some("Blue"))])
  {
    PlainPairsParse(text, "Red", " ", "Blue");
  }

  predicate PlainName(g: string) {
    g != "" && g != "*" && Trimmed(g) && ',' !in g && ':' !in g
  }

  lemma NoPads(p: string, l: string, r: string)
    ensures Pair(p, l, "", "", r, "").Text() == p + l + ":" + r
    ensures p == "" ==> p + l + ":" + r == l + ":" + r
  {
    assert p + l + "" + ":" + "" + r + "" == p + l + ":" + r;
    assert "" + l == l;
  }

  lemma FiveParts(a: string, b: string, c: string, d: string, e: string, f: string)
    ensures a + b + c + d + e + f == a + b + (c + d + e + f)
  {
    var ab := a + b;
    assert ab + c + d == ab + (c + d);
    assert ab + (c + d) + e == ab + (c + d + e);
    assert ab + (c + d + e) + f == ab + (c + d + e + f);
  }

  lemma PlainPairsParse(text: string, g: string, pad: string, h: string)
    requires PlainName(g) && PlainName(h) && AllSpace(pad) && text == g + ":" + g + "," + pad + h + ":" + h
    ensures Parse(text, In) == Ok([GroupEntry("", In, g, Some(g)), GroupEntry("", In, h, Some(h))])
  {
    var a, b := Pair("", g, "", "", g, ""), Pair(pad, h, "", "", h, "");
    NoPads("", g, g);
    NoPads(pad, h, h);
    FiveParts(g + ":" + g, [','], pad, h, ":", h);
    TwoEntriesParse(text, a, b, In, GroupEntry("", In, g, Some(g)), GroupEntry("", In, h, Some(h)));
  }

  /** Inbound, a star on the right blocks and one on the left stands for all groups. */
  lemma Stars(text: string)
    requires text == "Red:*,*:Red"
    ensures Parse(text, In) == Ok([GroupEntry("", In, "Red", None), GroupEntry("", In, "*", Some("Red"))])
  {
    var a, b := Pair("", "Red", "", "", "*", ""), Pair("", "*", "", "", "Red", "");
    TwoEntriesParse(text, a, b, In, GroupEntry("", In, "Red", None), GroupEntry("", In, "*", Some("Red")));
  }

  lemma TwoEntriesParse(text: string, a: Piece, b: Piece, direction: Direction, x: GroupEntry, y: GroupEntry)
    requires a.Valid() && b.Valid() && a.Entry(direction) == Some(x) && b.Entry(direction) == Some(y)
    requires text == a.Text() + [','] + b.Text()
    ensures Parse(text, direction) == Ok([x, y])
  {
    var pieces := [a, b];
    var texts := [a.Text(), b.Text()];
    assert Texts(pieces) == texts && texts[1..] == [b.Text()];
    assert Join(texts, ',') == text == Join(Texts(pieces), ',');
    assert pieces[..1] == [a] && [a][..0] == [];
    assert EntriesOf([a], direction) == [x];
    assert EntriesOf(pieces, direction) == [x] + [y] == [x, y];
    ParseInvertsRendering(pieces, direction);
  }

  lemma EmptyRightSide()
    ensures Parse("White:", In) == Ok([GroupEntry("", In, "White", None)])
    ensures Parse("White:", Out) == Ok([GroupEntry("", Out, "", Some("White"))])
  {
    EmptyRightSideParses("White");
    assert "White" + ":" == "White:";
  }
}
