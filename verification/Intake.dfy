/** What becomes of a message from a peer, on either side of a connection: decoded, guarded, and
    admitted into local groups. */
module Intake {
  import opened Wrappers
  import opened Groups
  import opened Codec

  /** CoT events of this family of types delete things. */
  const DELETE_PREFIX := "t-x-d-d"

  predicate IsDelete(etype: string) {
    DELETE_PREFIX <= etype
  }

  /** How a sender stands towards group policy: outside it, under a policy key, or refused
      everything. */
  datatype Standing = Ungoverned | Governed(tables: Tables, key: string) | Quarantined

  /** The event handed to the bridge; None when the message is dropped. */
  function Accepted(w: Wire, ceiling: int, allowDelete: bool, standing: Standing): Option<Event> {
    match DecodeFederatedEvent(w)
    case None => None
    case Some(geo) =>
      if !allowDelete && IsDelete(geo.etype) then None
      else match standing
        case Ungoverned => Some(Event(geo, Some(DecodeMeta(w, ceiling)), {}))
        case Quarantined => None
        case Governed(tables, key) =>
          var acl := Admitted(tables, key, Elements(w.groups));
          if acl == {} then None else Some(Event(geo, Some(DecodeMeta(w, ceiling)), acl))
  }

  /** The message carries a well-formed event, and not a forbidden deletion. */
  predicate Readable(w: Wire, allowDelete: bool) {
    && w.geo.Some? && w.geo.value.uid != "" && w.geo.value.etype != "" && !w.geo.value.detail.MalformedDetail?
    && (allowDelete || !("t-x-d-d" <= w.geo.value.etype))
  }

  /** An ungoverned peer's message gets in whatever its tags, into no groups of ours. */
  lemma UngovernedExact(w: Wire, ceiling: int, allowDelete: bool)
    ensures var out := Accepted(w, ceiling, allowDelete, Ungoverned);
      && (out.Some? <==> Readable(w, allowDelete))
      && (out.Some? ==> out.value == Event(w.geo.value, Some(DecodeMeta(w, ceiling)), {}))
  {}

  /** Exactly when a governed peer's message gets in, and as what: it must carry a well-formed
      event that is not a forbidden deletion; a tagged one gets in through the groups its tags
      map to, an untagged one through the wildcard's group only, and never into no group. The
      event itself and its provenance are those of the message. */
  lemma AcceptedExact(w: Wire, ceiling: int, allowDelete: bool, tables: Tables, key: string)
    ensures var out := Accepted(w, ceiling, allowDelete, Governed(tables, key));
      && (out.Some? <==>
          && Readable(w, allowDelete)
          && if w.groups == []
             then Inbound(tables, key, "*").Some? && Inbound(tables, key, "*") != Some("*")
             else exists i :: 0 <= i < |w.groups| && Inbound(tables, key, w.groups[i]).Some?)
      && (out.Some? ==>
          && out.value.geo == w.geo.value && out.value.aclGroups != {}
          && out.value.meta == Some(DecodeMeta(w, ceiling))
          && (ceiling > 0 ==> 0 < out.value.meta.value.maxHops <= ceiling)
          && forall g :: g in out.value.aclGroups <==>
            if w.groups == [] then Inbound(tables, key, "*") == Some(g)
            else exists i :: 0 <= i < |w.groups| && Inbound(tables, key, w.groups[i]) == Some(g))
  {
    var remote, acl := Elements(w.groups), Admitted(tables, key, Elements(w.groups));
    if w.groups == [] {
      assert remote == {};
      assert acl == {} <==> Inbound(tables, key, WILDCARD).None? || Inbound(tables, key, WILDCARD) == Some(WILDCARD);
    } else {
      assert w.groups[0] in remote;
      forall i | 0 <= i < |w.groups| && Inbound(tables, key, w.groups[i]).Some?
        ensures Inbound(tables, key, w.groups[i]).value in acl
      {
        assert w.groups[i] in remote;
      }
    }
  }

  /** Quarantine is absolute, and group policy only ever refuses more. */
  lemma PolicyOnlyRefuses(w: Wire, ceiling: int, allowDelete: bool, standing: Standing)
    ensures standing.Quarantined? ==> Accepted(w, ceiling, allowDelete, standing).None?
    ensures Accepted(w, ceiling, allowDelete, standing).Some? ==>
      && Accepted(w, ceiling, allowDelete, Ungoverned).Some?
      && Accepted(w, ceiling, allowDelete, standing).value.(aclGroups := {})
        == Accepted(w, ceiling, allowDelete, Ungoverned).value
  {}
}
