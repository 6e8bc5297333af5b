/** The loop filter: provenance stamped into an event's detail, recognised when the event comes
    back, and stripped before relaying. */
module LoopFilter {
  import opened Wrappers
  import opened Text
  import opened Cot
  import opened Dedup
  import Codec

  const FEDPROV := "_fedprov"
  const FEDHOPS := "_fedhops"
  const DETAIL := "detail"

  /** The text of an event: one that does not parse, or a tree. */
  datatype Document = Malformed(text: string) | Parsed(root: Elem)

  // ----- the first detail -----

  /** The position of the first child with a tag, or the number of children. */
  function IndexOf(children: seq<Elem>, tag: string): (i: nat)
    ensures i <= |children|
    ensures i < |children| ==> children[i].tag == tag
    ensures forall j | 0 <= j < i :: children[j].tag != tag
  {
    if children == [] then 0
    else if children[0].tag == tag then 0
    else 1 + IndexOf(children[1..], tag)
  }

  predicate HasDetail(root: Elem) {
    IndexOf(root.children, DETAIL) < |root.children|
  }

  function DetailOf(root: Elem): Elem
    requires HasDetail(root)
  {
    root.children[IndexOf(root.children, DETAIL)]
  }

  function WithDetail(root: Elem, detail: Elem): Elem
    requires HasDetail(root)
  {
    root.(children := root.children[IndexOf(root.children, DETAIL) := detail])
  }

  function Ensured(root: Elem): Elem {
    if HasDetail(root) then root else root.(children := root.children + [Elem(DETAIL, map[], [])])
  }

  lemma EnsuredHasDetail(root: Elem)
    ensures HasDetail(Ensured(root))
    ensures !HasDetail(root) ==> DetailOf(Ensured(root)) == Elem(DETAIL, map[], [])
  {
    if !HasDetail(root) {
      var children := Ensured(root).children;
      assert children[|children| - 1].tag == DETAIL;
    }
  }

  lemma WithDetailIsDetail(root: Elem, detail: Elem)
    requires HasDetail(root) && detail.tag == DETAIL
    ensures HasDetail(WithDetail(root, detail)) && DetailOf(WithDetail(root, detail)) == detail
    ensures forall other: Elem :: WithDetail(WithDetail(root, detail), other) == WithDetail(root, other)
  {
    var i := IndexOf(root.children, DETAIL);
    var children := WithDetail(root, detail).children;
    assert children[i].tag == DETAIL;
    assert IndexOf(children, DETAIL) == i;
  }

  // ----- stamping -----

  function ProvElem(serverId: string, chain: seq<string>): Elem {
    Elem(FEDPROV, if chain == [] then map["server_id" := serverId]
                  else map["server_id" := serverId, "chain" := Join(chain, ',')], [])
  }

  function HopsElem(maxHops: int, currentHops: int): Elem {
    Elem(FEDHOPS, map["max_hops" := PrintInt(if maxHops == 0 then Codec.UNLIMITED else maxHops),
                      "current_hops" := PrintInt(currentHops)], [])
  }

  function Stamped(doc: Document, serverId: string, meta: Codec.FedMeta): Document {
    match doc
    case Malformed(_) => doc
    case Parsed(root) =>
      EnsuredHasDetail(root);
      var r := Ensured(root);
      var detail := DetailOf(r);
      Parsed(WithDetail(r, detail.(children :=
        detail.children + [ProvElem(serverId, meta.chain), HopsElem(meta.maxHops, meta.currentHops)])))
  }

  // ----- stripping -----

  predicate IsStamp(e: Elem) {
    e.tag == "_fedprov" || e.tag == "_fedhops"
  }

  /** The children that are not of a tag, in order. */
  function Others(children: seq<Elem>, tag: string): seq<Elem> {
    if children == [] then []
    else
      var init, last := Others(children[..|children| - 1], tag), children[|children| - 1];
      if last.tag == tag then init else init + [last]
  }

  function Cleaned(doc: Document): Document {
    match doc
    case Malformed(_) => doc
    case Parsed(root) =>
      if !HasDetail(root) then doc
      else
        var detail := DetailOf(root);
        Parsed(WithDetail(root, detail.(children := Others(Others(detail.children, FEDPROV), FEDHOPS))))
  }

  // ----- recognising -----

  /** An id is the stamp's server or, stripped, one of its chain. */
  predicate Names(prov: Elem, id: string) {
    || Attr(prov, "server_id", "") == id
    || (Attr(prov, "chain", "") != ""
        && var ids := Split(Attr(prov, "chain", ""), ',');
           exists i | 0 <= i < |ids| :: Strip(ids[i]) == id)
  }

  /** Some provenance stamp of the event's detail names the id. */
  predicate Loops(doc: Document, id: string) {
    doc.Parsed? && HasDetail(doc.root)
    && exists i | 0 <= i < |DetailOf(doc.root).children| ::
      DetailOf(doc.root).children[i].tag == FEDPROV && Names(DetailOf(doc.root).children[i], id)
  }

  function UidOf(doc: Document): string {
    if doc.Parsed? then Attr(doc.root, "uid", "") else ""
  }

  /** The duplicate filter is on and the event has a uid to look up. */
  predicate Deduplicates(doc: Document, window: int) {
    doc.Parsed? && window > 0 && UidOf(doc) != ""
  }

  /** An event of that uid was accepted less than a window ago, as far as is remembered. */
  predicate IsDuplicate(memory: seq<Seen>, doc: Document, now: int, window: int) {
    Deduplicates(doc, window) && Fresh(Lookup(memory, UidOf(doc)), now, window)
  }

  function Remembered(memory: seq<Seen>, doc: Document, now: int, window: int): seq<Seen> {
    if Deduplicates(doc, window) && !IsDuplicate(memory, doc, now, window)
    then Evict(Touch(memory, Seen(UidOf(doc), now))) else memory
  }

  // ----- reading a stamp back -----

  datatype Provenance = Provenance(
    serverId: Option<string>, chain: seq<string>, maxHops: Option<int>, currentHops: Option<int>)

  function ReadChain(raw: string): seq<string> {
    if raw == "" then [] else Items(Split(raw, ','))
  }

  function ParseFedprov(doc: Document): Option<Provenance> {
    if doc.Malformed? || !HasDetail(doc.root) then None else ReadStamps(DetailOf(doc.root).children)
  }

  /** What the first stamps of a detail say; a bad maximum hides the hop count as well. */
  function ReadStamps(children: seq<Elem>): Option<Provenance> {
    var prov, hops := Find(children, FEDPROV), Find(children, FEDHOPS);
    var max := match hops case None => None case Some(h) => ReadInt(Attr(h, "max_hops", "-1"));
    var current := if max.None? then None else ReadInt(Attr(hops.value, "current_hops", "0"));
    match prov
    case Some(p) => Some(Provenance(Some(Attr(p, "server_id", "")), ReadChain(Attr(p, "chain", "")), max, current))
    case None => if max.None? then None else Some(Provenance(None, [], max, current))
  }

  // ----- the filter object -----

  class LoopFilter {
    const serverId: string
    const window: int
    var dedup: seq<Seen>

    constructor (serverId: string, window: int)
      ensures this.serverId == serverId && this.window == window && dedup == []
    {
      this.serverId, this.window, dedup := serverId, window, [];
    }

    method StampInbound(doc: Document, meta: Codec.FedMeta) returns (out: Document)
      ensures out == Stamped(doc, serverId, meta)
    {
      if doc.Malformed? {
        return doc;
      }
      var root := doc.root;
      EnsuredHasDetail(root);
      if IndexOf(root.children, DETAIL) == |root.children| {
        root := root.(children := root.children + [Elem(DETAIL, map[], [])]);
      }
      var i := IndexOf(root.children, DETAIL);
      var detail := root.children[i];
      var prov := Elem(FEDPROV, map["server_id" := serverId], []);
      if meta.chain != [] {
        prov := prov.(attrs := prov.attrs["chain" := Join(meta.chain, ',')]);
      }
      detail := detail.(children := detail.children + [prov]);
      var maxHops := meta.maxHops;
      if maxHops == 0 {
        maxHops := -1;
      }
      var hops := Elem(FEDHOPS, map["max_hops" := PrintInt(maxHops)], []);
      hops := hops.(attrs := hops.attrs["current_hops" := PrintInt(meta.currentHops)]);
      detail := detail.(children := detail.children + [hops]);
      out := Parsed(root.(children := root.children[i := detail]));
      assert DetailOf(root).children + [prov, hops] == DetailOf(root).children + [prov] + [hops];
    }

    /** The duplicate check comes first and remembers the event even when a stamp then drops it. */
    method ShouldRelayOutbound(doc: Document, now: int) returns (relay: bool)
      modifies this
      ensures relay == (!IsDuplicate(old(dedup), doc, now, window) && !Loops(doc, serverId))
      ensures dedup == Remembered(old(dedup), doc, now, window)
    {
      if doc.Malformed? {
        return true;
      }
      var root := doc.root;
      var uid := Attr(root, "uid", "");
      if window > 0 && uid != "" {
        var lastSeen := Lookup(dedup, uid);
        if lastSeen.Some? && now - lastSeen.value < window {
          return false;
        }
        dedup := Touch(dedup, Seen(uid, now));
        if |dedup| > CAPACITY {
          dedup := dedup[1..];
        }
      }
      var at := IndexOf(root.children, DETAIL);
      if at == |root.children| {
        return true;
      }
      var children := root.children[at].children;
      for i := 0 to |children|
        invariant forall k | 0 <= k < i :: children[k].tag == FEDPROV ==> !Names(children[k], serverId)
      {
        var elem := children[i];
        if elem.tag == FEDPROV {
          assert children == DetailOf(doc.root).children;
          if Attr(elem, "server_id", "") == serverId {
            assert Names(children[i], serverId);
            return false;
          }
          var chain := Attr(elem, "chain", "");
          if chain != "" {
            var ids := Split(chain, ',');
            for j := 0 to |ids|
              invariant forall k | 0 <= k < j :: Strip(ids[k]) != serverId
            {
              if Strip(ids[j]) == serverId {
                assert Names(children[i], serverId);
                return false;
              }
            }
          }
        }
      }
      return true;
    }

    method CleanForRelay(doc: Document) returns (out: Document)
      ensures out == Cleaned(doc)
    {
      if doc.Malformed? {
        return doc;
      }
      var at := IndexOf(doc.root.children, DETAIL);
      if at == |doc.root.children| {
        return doc;
      }
      var detail := doc.root.children[at];
      var children := RemoveAll(detail.children, FEDPROV);
      children := RemoveAll(children, FEDHOPS);
      return Parsed(doc.root.(children := doc.root.children[at := detail.(children := children)]));
    }

    /** List every child of a tag, then take the listed ones out one by one. */
    static method RemoveAll(children: seq<Elem>, tag: string) returns (left: seq<Elem>)
      ensures left == Others(children, tag)
    {
      left := children;
      var found := FindAll(children, tag);
      for k := 0 to |found|
        invariant FindAll(left, tag) == found[k..]
        invariant Others(left, tag) == Others(children, tag)
      {
        FirstFound(left, tag);
        RemoveOne(left, tag);
        var at := PositionOf(left, found[k]);
        left := left[..at] + left[at + 1..];
      }
      NoneFound(left, tag);
    }
  }

  function FindAll(children: seq<Elem>, tag: string): seq<Elem> {
    if children == [] then []
    else if children[0].tag == tag then [children[0]] + FindAll(children[1..], tag)
    else FindAll(children[1..], tag)
  }

  function PositionOf(children: seq<Elem>, e: Elem): (i: nat)
    requires e in children
    ensures i < |children| && children[i] == e && forall j | 0 <= j < i :: children[j] != e
  {
    if children[0] == e then 0 else 1 + PositionOf(children[1..], e)
  }

  lemma {:induction false} OthersFront(children: seq<Elem>, tag: string)
    requires children != []
    ensures Others(children, tag) == (if children[0].tag == tag then [] else [children[0]]) + Others(children[1..], tag)
  {
    if |children| > 1 {
      var init := children[..|children| - 1];
      OthersFront(init, tag);
      assert children[1..][..|children| - 2] == init[1..];
    }
  }

  lemma {:induction false} NoneFound(children: seq<Elem>, tag: string)
    requires FindAll(children, tag) == []
    ensures Others(children, tag) == children
  {
    if children != [] {
      NoneFound(children[1..], tag);
      OthersFront(children, tag);
    }
  }

  lemma {:induction false} FirstFound(children: seq<Elem>, tag: string)
    requires FindAll(children, tag) != []
    ensures var e := FindAll(children, tag)[0]; e in children && PositionOf(children, e) == IndexOf(children, tag)
  {
    if children[0].tag != tag {
      FirstFound(children[1..], tag);
    }
  }

  lemma WithFront(first: Elem, rest: seq<Elem>, tag: string)
    requires first.tag != tag
    ensures FindAll([first] + rest, tag) == FindAll(rest, tag)
    ensures Others([first] + rest, tag) == [first] + Others(rest, tag)
  {
    assert ([first] + rest)[1..] == rest;
    OthersFront([first] + rest, tag);
  }

  lemma RemoveShifted<T>(s: seq<T>, i: nat)
    requires i + 1 < |s|
    ensures s[..i + 1] + s[i + 2..] == [s[0]] + (s[1..][..i] + s[1..][i + 1..])
  {}

  lemma {:induction false} RemoveOne(children: seq<Elem>, tag: string)
    requires FindAll(children, tag) != []
    ensures var i := IndexOf(children, tag);
      && i < |children|
      && FindAll(children[..i] + children[i + 1..], tag) == FindAll(children, tag)[1..]
      && Others(children[..i] + children[i + 1..], tag) == Others(children, tag)
  {
    OthersFront(children, tag);
    if children[0].tag == tag {
      assert children[..0] + children[1..] == children[1..];
    } else {
      var first, rest := children[0], children[1..];
      RemoveOne(rest, tag);
      var i := IndexOf(rest, tag);
      RemoveShifted(children, i);
      WithFront(first, rest[..i] + rest[i + 1..], tag);
    }
  }

  lemma {:induction false} OthersConcat(a: seq<Elem>, b: seq<Elem>, tag: string)
    ensures Others(a + b, tag) == Others(a, tag) + Others(b, tag)
  {
    if b == [] {
      assert a + b == a;
    } else {
      OthersConcat(a, b[..|b| - 1], tag);
      assert (a + b)[..|a + b| - 1] == a + b[..|b| - 1];
    }
  }

  // ----- stripping: what goes and what stays -----

  function Stripped(children: seq<Elem>): seq<Elem> {
    Others(Others(children, FEDPROV), FEDHOPS)
  }

  /** The children that are no stamps, in order. */
  function Unstamped(children: seq<Elem>): seq<Elem> {
    if children == [] then []
    else
      var init, last := Unstamped(children[..|children| - 1]), children[|children| - 1];
      if IsStamp(last) then init else init + [last]
  }

  lemma {:induction false} StrippedIsUnstamped(children: seq<Elem>)
    ensures Stripped(children) == Unstamped(children)
  {
    if children != [] {
      StrippedIsUnstamped(children[..|children| - 1]);
    }
  }

  lemma {:induction false} UnstampedFacts(children: seq<Elem>)
    ensures forall e | e in Unstamped(children) :: !IsStamp(e)
    ensures Unstamped(Unstamped(children)) == Unstamped(children)
  {
    if children != [] {
      UnstampedFacts(children[..|children| - 1]);
    }
  }

  /** Stripping removes exactly the provenance and hop stamps of the first detail, keeps every
      other child of it in order, and touches nothing else of the event. */
  lemma CleanedExactly(root: Elem)
    requires HasDetail(root)
    ensures var out := Cleaned(Parsed(root));
      && out.Parsed? && HasDetail(out.root)
      && DetailOf(out.root).children == Unstamped(DetailOf(root).children)
      && out.root == WithDetail(root, DetailOf(root).(children := Unstamped(DetailOf(root).children)))
  {
    StrippedIsUnstamped(DetailOf(root).children);
    WithDetailIsDetail(root, DetailOf(root).(children := Unstamped(DetailOf(root).children)));
  }

  /** Stripping twice is stripping once, and what was stripped names nobody: the filter lets it
      through for every server id. */
  lemma CleanedIsClean(doc: Document, id: string)
    ensures Cleaned(Cleaned(doc)) == Cleaned(doc)
    ensures !Loops(Cleaned(doc), id)
  {
    if doc.Parsed? && HasDetail(doc.root) {
      CleanedExactly(doc.root);
      UnstampedFacts(DetailOf(doc.root).children);
      var out := Cleaned(doc).root;
      CleanedExactly(out);
      WithDetailIsDetail(doc.root, DetailOf(out));
      forall i | 0 <= i < |DetailOf(out).children| ensures DetailOf(out).children[i].tag != FEDPROV {
        assert DetailOf(out).children[i] in Unstamped(DetailOf(doc.root).children);
      }
    }
  }

  // ----- stamping: what it adds -----

  lemma StampedExactly(root: Elem, serverId: string, meta: Codec.FedMeta)
    ensures var r, out := Ensured(root), Stamped(Parsed(root), serverId, meta);
      && HasDetail(r) && out.Parsed? && HasDetail(out.root)
      && DetailOf(out.root) == DetailOf(r).(children :=
           DetailOf(r).children + [ProvElem(serverId, meta.chain), HopsElem(meta.maxHops, meta.currentHops)])
      && out.root == WithDetail(r, DetailOf(out.root))
  {
    EnsuredHasDetail(root);
    var r := Ensured(root);
    WithDetailIsDetail(r, DetailOf(r).(children :=
      DetailOf(r).children + [ProvElem(serverId, meta.chain), HopsElem(meta.maxHops, meta.currentHops)]));
  }

  lemma UnstampedAppend(children: seq<Elem>, prov: Elem, hops: Elem)
    requires prov.tag == FEDPROV && hops.tag == FEDHOPS
    ensures Unstamped(children + [prov, hops]) == Unstamped(children)
  {
    var all := children + [prov, hops];
    assert all[..|all| - 1] == children + [prov];
    assert (children + [prov])[..|children|] == children;
  }

  /** Stripping cancels stamping exactly when there is nothing to stamp or a detail to stamp
      into; otherwise an empty detail is left behind. */
  lemma CleanCancelsStamp(doc: Document, serverId: string, meta: Codec.FedMeta)
    ensures Cleaned(Stamped(doc, serverId, meta)) == Cleaned(doc) <==> doc.Malformed? || HasDetail(doc.root)
    ensures doc.Parsed? ==> Cleaned(Stamped(doc, serverId, meta)) == Cleaned(Parsed(Ensured(doc.root)))
  {
    if doc.Parsed? {
      var r, out := Ensured(doc.root), Stamped(doc, serverId, meta).root;
      StampedExactly(doc.root, serverId, meta);
      CleanedExactly(out);
      CleanedExactly(r);
      UnstampedAppend(DetailOf(r).children, ProvElem(serverId, meta.chain), HopsElem(meta.maxHops, meta.currentHops));
      WithDetailIsDetail(r, DetailOf(out));
      WithDetailIsDetail(r, DetailOf(r).(children := Unstamped(DetailOf(r).children)));
      assert |Cleaned(Parsed(r)).root.children| == |r.children|;
    }
  }

  /** An event without a detail does not come back as it was. */
  lemma StampLeavesDetail(serverId: string, meta: Codec.FedMeta)
    ensures var doc := Parsed(Elem("event", map[], [])); Cleaned(Stamped(doc, serverId, meta)) != Cleaned(doc)
  {
    var root := Elem("event", map[], []);
    assert !HasDetail(root);
    CleanCancelsStamp(Parsed(root), serverId, meta);
  }

  // ----- the duplicate memory over a run of calls -----

  /** One call of the filter. */
  datatype Call = Call(doc: Document, now: int)

  function MemoryAfter(calls: seq<Call>, window: int): seq<Seen> {
    if calls == [] then []
    else
      var last := calls[|calls| - 1];
      Remembered(MemoryAfter(calls[..|calls| - 1], window), last.doc, last.now, window)
  }

  /** The event has a uid, and the filter looks at uids at all. */
  predicate HasUid(doc: Document, window: int) {
    window > 0 && doc.Parsed? && "uid" in doc.root.attrs && doc.root.attrs["uid"] != ""
  }

  function EventOf(call: Call): Seen {
    Seen(if call.doc.Parsed? && "uid" in call.doc.root.attrs then call.doc.root.attrs["uid"] else "", call.now)
  }

  /** The uids looked up, in order, and when. */
  function LookedUp(calls: seq<Call>, window: int): seq<Seen> {
    if calls == [] then []
    else
      var init, last := LookedUp(calls[..|calls| - 1], window), calls[|calls| - 1];
      if HasUid(last.doc, window) then init + [EventOf(last)] else init
  }

  /** A filter that is called again and again remembers what the bounded memory keeps of the uids
      it accepted, and calls an event a duplicate just when that memory rejects it. */
  lemma {:induction false} CallsFollowTrace(calls: seq<Call>, window: int, next: Call)
    ensures MemoryAfter(calls, window) == Bounded(BoundedLog(LookedUp(calls, window), window))
    ensures IsDuplicate(MemoryAfter(calls, window), next.doc, next.now, window)
      <==> HasUid(next.doc, window)
           && BoundedRejects(BoundedLog(LookedUp(calls, window), window), EventOf(next), window)
  {
    if calls != [] {
      var init, last := calls[..|calls| - 1], calls[|calls| - 1];
      CallsFollowTrace(init, window, last);
      RememberedIsBounded(LookedUp(init, window), last, window);
    }
    DuplicateIsRejected(BoundedLog(LookedUp(calls, window), window), next, window);
  }

  lemma DuplicateIsRejected(log: seq<Seen>, call: Call, window: int)
    ensures IsDuplicate(Bounded(log), call.doc, call.now, window)
      <==> HasUid(call.doc, window) && BoundedRejects(log, EventOf(call), window)
  {}

  lemma RememberedIsBounded(trace: seq<Seen>, call: Call, window: int)
    ensures Remembered(Bounded(BoundedLog(trace, window)), call.doc, call.now, window)
      == Bounded(BoundedLog(if HasUid(call.doc, window) then trace + [EventOf(call)] else trace, window))
  {
    var e, log := EventOf(call), BoundedLog(trace, window);
    DuplicateIsRejected(log, call, window);
    if HasUid(call.doc, window) {
      BoundedSnoc(trace, e, window);
    }
  }

  lemma BoundedSnoc(trace: seq<Seen>, e: Seen, window: int)
    ensures var log := BoundedLog(trace, window);
      && BoundedLog(trace + [e], window) == (if BoundedRejects(log, e, window) then log else log + [e])
      && Bounded(log + [e]) == Evict(Touch(Bounded(log), e))
  {
    var log := BoundedLog(trace, window);
    assert (trace + [e])[..|trace|] == trace && (log + [e])[..|log|] == log;
  }

  /** Every call's duplicate check comes out as with an unbounded memory. */
  ghost predicate DecidesAsUnbounded(calls: seq<Call>, window: int) {
    forall k | 0 <= k < |calls| :: CheckedAsUnbounded(calls, window, k)
  }

  predicate CheckedAsUnbounded(calls: seq<Call>, window: int, k: nat)
    requires k < |calls|
  {
    IsDuplicate(MemoryAfter(calls[..k], window), calls[k].doc, calls[k].now, window)
    == (HasUid(calls[k].doc, window)
        && ReferenceRejects(ReferenceLog(LookedUp(calls[..k], window), window), EventOf(calls[k]), window))
  }

  lemma CheckedSnoc(init: seq<Call>, last: Call, window: int)
    ensures DecidesAsUnbounded(init + [last], window)
      <==> DecidesAsUnbounded(init, window) && CheckedAsUnbounded(init + [last], window, |init|)
  {
    forall k | 0 <= k < |init|
      ensures CheckedAsUnbounded(init + [last], window, k) == CheckedAsUnbounded(init, window, k)
    {
      assert (init + [last])[..k] == init[..k];
    }
    assert (init + [last])[|init|] == last;
  }

  /** So a run of calls checks duplicates as an unbounded memory would if and only if no looked-up
      duplicate comes after 2048 other accepted uids. */
  lemma {:induction false} CallsRefineExactly(calls: seq<Call>, window: int)
    ensures DecidesAsUnbounded(calls, window) <==> NeverOverflows(LookedUp(calls, window), window)
  {
    if calls != [] {
      var init, last := calls[..|calls| - 1], calls[|calls| - 1];
      assert calls == init + [last];
      CallsRefineExactly(init, window);
      CheckedSnoc(init, last, window);
      var trace, e := LookedUp(init, window), EventOf(last);
      BoundedRefinesExactly(trace, window);
      PrefixDecisions(trace, e, window);
      if AllAgree(trace, window) {
        CheckedLast(init, last, window);
        LastDecision(trace, e, window);
      }
    }
  }

  /** As long as all went as with an unbounded memory, the next check does so too exactly when the
      event's uid is not looked up at all or the two memories decide it alike. */
  lemma CheckedLast(init: seq<Call>, last: Call, window: int)
    requires AllAgree(LookedUp(init, window), window)
    ensures var trace, e := LookedUp(init, window), EventOf(last);
      CheckedAsUnbounded(init + [last], window, |init|)
      <==> (HasUid(last.doc, window) ==> SameDecision(trace + [e], window, |trace|))
  {
    var trace, e := LookedUp(init, window), EventOf(last);
    assert (init + [last])[..|init|] == init && (init + [last])[|init|] == last;
    assert (trace + [e])[..|trace|] == trace && (trace + [e])[|trace|] == e;
    CallsFollowTrace(init, window, last);
  }

  // ----- echoes -----

  /** A document whose detail still has the children a stamped one was given. */
  predicate SameDetail(doc: Document, stamped: Document) {
    && doc.Parsed? && stamped.Parsed? && HasDetail(doc.root) && HasDetail(stamped.root)
    && DetailOf(doc.root).children == DetailOf(stamped.root).children
  }

  /** An id that survives being listed in a comma-separated chain. */
  predicate Listable(id: string) {
    id != "" && Trimmed(id) && ',' !in id
  }

  /** An id without a comma comes out of a comma-joined chain, whatever else is in the chain. */
  lemma {:induction false} MemberSurvives(chain: seq<string>, id: string)
    requires id in chain && ',' !in id
    ensures id in Split(Join(chain, ','), ',')
  {
    if |chain| == 1 {
      SplitWithoutSep(id, ',');
    } else {
      SplitAppend(chain[0], ',', Join(chain[1..], ','));
      if chain[0] == id {
        SplitWithoutSep(id, ',');
      } else {
        MemberSurvives(chain[1..], id);
      }
    }
  }

  lemma {:induction false} JoinNonEmpty(chain: seq<string>)
    requires chain != [] && forall i | 0 <= i < |chain| :: chain[i] != ""
    ensures Join(chain, ',') != ""
  {}

  /** An event stamped by a server is recognised by it when it comes back with its detail
      children intact, and by every server of its chain whose own id is listable as well,
      whatever the other ids look like. */
  lemma StampIsRecognised(doc: Document, back: Document, serverId: string, meta: Codec.FedMeta, id: string)
    requires SameDetail(back, Stamped(doc, serverId, meta))
    requires id == serverId || (id in meta.chain && Listable(id))
    ensures Loops(back, id)
  {
    StampedExactly(doc.root, serverId, meta);
    var children := DetailOf(back.root).children;
    var n := |children| - 2;
    var prov := ProvElem(serverId, meta.chain);
    assert children[n] == prov;
    if id != serverId {
      MemberSurvives(meta.chain, id);
      var ids := Split(Attr(prov, "chain", ""), ',');
      var i :| 0 <= i < |ids| && ids[i] == id;
      StripTrimmed(id);
      assert Strip(ids[i]) == id;
    }
    assert Names(prov, id);
  }

  /** And by nobody else, when the event was stripped before it was stamped and the chain's ids
      can be listed. */
  lemma RefusedExactly(doc: Document, back: Document, serverId: string, meta: Codec.FedMeta, id: string)
    requires SameDetail(back, Stamped(Cleaned(doc), serverId, meta))
    requires forall x | x in meta.chain :: Listable(x)
    ensures Loops(back, id) <==> id == serverId || id in meta.chain
  {
    if id == serverId || id in meta.chain {
      StampIsRecognised(Cleaned(doc), back, serverId, meta, id);
    }
    if Loops(back, id) {
      OnlyStamp(doc, back, serverId, meta);
      NamesExactly(serverId, meta.chain, id);
    }
  }

  /** The one stamp of an event that was stripped first. */
  lemma OnlyStamp(doc: Document, back: Document, serverId: string, meta: Codec.FedMeta)
    requires SameDetail(back, Stamped(Cleaned(doc), serverId, meta))
    ensures forall e | e in DetailOf(back.root).children && e.tag == FEDPROV :: e == ProvElem(serverId, meta.chain)
  {
    var clean := Cleaned(doc).root;
    StampedExactly(clean, serverId, meta);
    EnsuredHasDetail(clean);
    if HasDetail(doc.root) {
      CleanedExactly(doc.root);
      UnstampedFacts(DetailOf(doc.root).children);
    }
  }

  lemma NamesExactly(serverId: string, chain: seq<string>, id: string)
    requires (forall x | x in chain :: Listable(x)) && Names(ProvElem(serverId, chain), id)
    ensures id == serverId || id in chain
  {
    if id != serverId {
      assert forall i | 0 <= i < |chain| :: chain[i] in chain;
      SplitJoin(chain, ',');
      var k :| 0 <= k < |chain| && Strip(chain[k]) == id;
      StripTrimmed(chain[k]);
    }
  }

  /** A comma-separated text lists an id, with any blanks around it. */
  ghost predicate ListsId(text: string, id: string) {
    exists pieces: seq<string>, k, p, q ::
      && 0 <= k < |pieces| && pieces[k] == p + id + q && AllSpace(p) && AllSpace(q) && Trimmed(id)
      && (forall i | 0 <= i < |pieces| :: ',' !in pieces[i]) && text == Join(pieces, ',')
  }

  lemma ListsExactly(text: string, id: string)
    ensures ListsId(text, id) <==> exists i :: 0 <= i < |Split(text, ',')| && Strip(Split(text, ',')[i]) == id
  {
    if ListsId(text, id) {
      var pieces: seq<string>, k, p, q :|
        && 0 <= k < |pieces| && pieces[k] == p + id + q && AllSpace(p) && AllSpace(q) && Trimmed(id)
        && (forall i | 0 <= i < |pieces| :: ',' !in pieces[i]) && text == Join(pieces, ',');
      SplitJoin(pieces, ',');
      StripPadded(p, id, q);
      assert Strip(Split(text, ',')[k]) == id;
    }
    var pieces := Split(text, ',');
    if i :| 0 <= i < |pieces| && Strip(pieces[i]) == id {
      var p, q := StripResult(pieces[i]);
      SplitPieces(text, ',');
      JoinSplit(text, ',');
      assert pieces[i] == p + id + q;
    }
  }

  /** Whatever stamps an event comes with, by anybody's hand: a server refuses it exactly when some
      `_fedprov` child of its detail has the server's id as its own, or in its chain with any
      blanks around it. */
  lemma LoopsExactly(doc: Document, id: string)
    ensures Loops(doc, id) <==>
      && doc.Parsed? && HasDetail(doc.root)
      && exists i | 0 <= i < |DetailOf(doc.root).children| ::
        var e := DetailOf(doc.root).children[i];
        && e.tag == "_fedprov"
        && (|| (if "server_id" in e.attrs then e.attrs["server_id"] else "") == id
            || ("chain" in e.attrs && e.attrs["chain"] != "" && ListsId(e.attrs["chain"], id)))
  {
    if doc.Parsed? && HasDetail(doc.root) {
      var children := DetailOf(doc.root).children;
      forall i | 0 <= i < |children| && "chain" in children[i].attrs
        ensures var chain := children[i].attrs["chain"];
          ListsId(chain, id) <==> exists k :: 0 <= k < |Split(chain, ',')| && Strip(Split(chain, ',')[k]) == id
      {
        ListsExactly(children[i].attrs["chain"], id);
      }
    }
  }

  /** A stamp in full. */
  lemma StampByExample()
    ensures var doc := Parsed(Elem("event", map[], [Elem("detail", map[], [])]));
      Stamped(doc, "A", Codec.FedMeta(["B", "C"], 12, 0, None))
      == Parsed(Elem("event", map[], [Elem("detail", map[], [
           Elem("_fedprov", map["server_id" := "A", "chain" := "B,C"], []),
           Elem("_fedhops", map["max_hops" := "-1", "current_hops" := "12"], [])])]))
  {
    var root, meta := Elem("event", map[], [Elem("detail", map[], [])]), Codec.FedMeta(["B", "C"], 12, 0, None);
    assert ["B", "C"][1..] == ["C"] && Join(["B", "C"], ',') == "B,C";
    assert PrintNat(1) == "1" && PrintNat(12) == "12" && PrintInt(-1) == "-1";
    var detail := Elem("detail", map[], [ProvElem("A", meta.chain), HopsElem(0, 12)]);
    StampedExactly(root, "A", meta);
    assert IndexOf(root.children, DETAIL) == 0 && DetailOf(root) == root.children[0];
    assert DetailOf(Stamped(Parsed(root), "A", meta).root) == detail;
    assert WithDetail(root, detail).children == [detail];
  }

  /** How incomplete stamps read: a missing budget as none, a missing hop count as 0; and one that
      is no number hides both. */
  lemma BareStamps(attrs: map<string, string>)
    requires "max_hops" !in attrs && "current_hops" !in attrs
    ensures ReadStamps([Elem("_fedprov", map[], []), Elem("_fedhops", attrs, [])])
      == Some(Provenance(Some(""), [], Some(-1), Some(0)))
    ensures ReadStamps([Elem("_fedhops", attrs, [])]) == Some(Provenance(None, [], Some(-1), Some(0)))
    ensures ReadStamps([Elem("_fedprov", map[], []), Elem("_fedhops", attrs["max_hops" := "x"], [])])
      == Some(Provenance(Some(""), [], None, None))
    ensures ReadStamps([Elem("_fedhops", attrs["max_hops" := "x"], [])]).None? && ReadStamps([]).None?
  {
    var prov, hops := Elem("_fedprov", map[], []), Elem("_fedhops", attrs, []);
    var bad := Elem("_fedhops", attrs["max_hops" := "x"], []);
    assert Find([hops], "_fedhops") == Some(hops) && Find([bad], "_fedhops") == Some(bad);
    assert [hops][1..] == [] && Find([hops], "_fedprov").None? && [bad][1..] == [] && Find([bad], "_fedprov").None?;
    assert [prov, hops][1..] == [hops] && [prov, bad][1..] == [bad];
    assert Find([prov, hops], "_fedhops") == Some(hops) && Find([prov, bad], "_fedhops") == Some(bad);
    ShortNumbers("-1", "0", "x", "+5");
  }

  lemma ShortNumbers(one: string, zero: string, none: string, plus: string)
    requires one == "-1" && zero == "0" && none == "x" && plus == "+5"
    ensures ReadInt(one) == Some(-1) && ReadInt(zero) == Some(0) && ReadInt(none).None? && ReadInt(plus) == Some(5)
  {
    StripTrimmed(plus);
    assert plus[1..] == ['5'];
    ReadPrintInt(-1);
    ReadPrintInt(0);
    assert PrintNat(1) == "1" && PrintInt(-1) == one && PrintInt(0) == zero;
    StripTrimmed(none);
  }

  // ----- round trip -----

  lemma {:induction false} ItemsOfListable(chain: seq<string>)
    requires forall i | 0 <= i < |chain| :: Listable(chain[i])
    ensures Items(chain) == chain
  {
    if chain != [] {
      var init, last := chain[..|chain| - 1], chain[|chain| - 1];
      ItemsOfListable(init);
      StripTrimmed(last);
      assert chain == init + [last];
    }
  }

  lemma {:induction false} ItemsAreListable(parts: seq<string>)
    requires forall i | 0 <= i < |parts| :: ',' !in parts[i]
    ensures forall x | x in Items(parts) :: Listable(x)
  {
    if parts != [] {
      ItemsAreListable(parts[..|parts| - 1]);
      var last := parts[|parts| - 1];
      var l, r := StripResult(last);
      forall c | c in Strip(last) ensures c in last {}
    }
  }

  /** A chain is read back as written exactly when every id in it is non-empty, free of commas,
      and has no blanks at its ends. */
  lemma ChainRoundTrip(chain: seq<string>)
    requires chain != []
    ensures ReadChain(Join(chain, ',')) == chain <==> forall x | x in chain :: Listable(x)
  {
    var raw := Join(chain, ',');
    if forall x | x in chain :: Listable(x) {
      forall i | 0 <= i < |chain| ensures Listable(chain[i]) {
        assert chain[i] in chain;
      }
      JoinNonEmpty(chain);
      SplitJoin(chain, ',');
      ItemsOfListable(chain);
    }
    if ReadChain(raw) == chain {
      SplitPieces(raw, ',');
      ItemsAreListable(Split(raw, ','));
    }
  }

  /** An id with a comma comes back as two. */
  lemma CommaSplitsChain()
    ensures ReadChain(Join(["a,b"], ',')) != ["a,b"]
  {
    assert "a,b"[1] == ',';
    assert !Listable("a,b") && "a,b" in ["a,b"];
    ChainRoundTrip(["a,b"]);
  }

  lemma {:induction false} FindAfter(children: seq<Elem>, prov: Elem, hops: Elem)
    requires prov.tag == FEDPROV && hops.tag == FEDHOPS && forall e | e in children :: !IsStamp(e)
    ensures Find(children + [prov, hops], FEDPROV) == Some(prov)
    ensures Find(children + [prov, hops], FEDHOPS) == Some(hops)
  {
    var all := children + [prov, hops];
    if children == [] {
      assert all == [prov, hops];
      assert all[1..] == [hops];
    } else {
      assert children[0] in children && all[0] == children[0];
      assert all[1..] == children[1..] + [prov, hops];
      FindAfter(children[1..], prov, hops);
    }
  }

  /** Stamping a stripped event and reading the stamp back gives our id, the hop count, the
      budget with 0 read as unlimited, and the prior chain in order; the chain comes back
      exactly when its ids are listable. */
  lemma StampRoundTrip(doc: Document, serverId: string, meta: Codec.FedMeta)
    requires doc.Parsed?
    ensures var read := ParseFedprov(Stamped(Cleaned(doc), serverId, meta));
      && read.Some? && read.value.serverId == Some(serverId)
      && read.value.maxHops == Some(if meta.maxHops == 0 then Codec.UNLIMITED else meta.maxHops)
      && read.value.currentHops == Some(meta.currentHops)
      && (read.value.chain == meta.chain <==> forall x | x in meta.chain :: Listable(x))
  {
    var clean := Cleaned(doc).root;
    StampedExactly(clean, serverId, meta);
    EnsuredHasDetail(clean);
    var before := DetailOf(Ensured(clean)).children;
    if HasDetail(doc.root) {
      CleanedExactly(doc.root);
      UnstampedFacts(DetailOf(doc.root).children);
    }
    FindAfter(before, ProvElem(serverId, meta.chain), HopsElem(meta.maxHops, meta.currentHops));
    ReadPrintInt(if meta.maxHops == 0 then Codec.UNLIMITED else meta.maxHops);
    ReadPrintInt(meta.currentHops);
    if meta.chain != [] {
      ChainRoundTrip(meta.chain);
    }
  }
}
