/** The bridge that hands events from network threads to the engine: a queue, and a small socket
    buffer whose bytes wake the engine up. */
module Bridge {
  import opened Wrappers

  // ----- the bridge object, one call at a time -----

  /** `handedOver` lists the items the bus was called with, whether or not it then raised. */
  class FederationBridge<Item> {
    const capacity: nat
    var queue: seq<Item>
    var wakeBytes: nat
    var handedOver: seq<Item>

    ghost predicate Valid()
      reads this
    {
      wakeBytes <= capacity
    }

    constructor (capacity: nat)
      ensures Valid() && queue == [] && wakeBytes == 0 && handedOver == [] && this.capacity == capacity
    {
      this.capacity, queue, wakeBytes, handedOver := capacity, [], 0, [];
    }

    /** The item is queued even when the wakeup cannot be sent. */
    method Enqueue(item: Item)
      requires Valid()
      modifies this
      ensures Valid() && queue == old(queue) + [item] && handedOver == old(handedOver)
      ensures wakeBytes == if old(wakeBytes) < capacity then old(wakeBytes) + 1 else old(wakeBytes)
    {
      queue := queue + [item];
      if wakeBytes < capacity {
        wakeBytes := wakeBytes + 1;
      }
    }

    /** With nobody enqueueing meanwhile, a drain empties both and hands everything over in
        order, unless reading the wakeup bytes fails, and then it hands over nothing. */
    method Drain(readFails: bool)
      requires Valid()
      modifies this
      ensures Valid()
      ensures readFails ==> queue == old(queue) && handedOver == old(handedOver)
      ensures !readFails ==> queue == [] && wakeBytes == 0 && handedOver == old(handedOver) + old(queue)
    {
      while wakeBytes > 0
        invariant Valid() && queue == old(queue) && handedOver == old(handedOver)
      {
        wakeBytes := wakeBytes - if wakeBytes < 4096 then wakeBytes else 4096;
      }
      if readFails {
        return;
      }
      while queue != []
        invariant wakeBytes == 0 && handedOver + queue == old(handedOver) + old(queue)
        decreases |queue|
      {
        var item := queue[0];
        queue := queue[1..];
        handedOver := handedOver + [item];
      }
    }
  }

  // ----- all interleavings -----

  /** Where the engine's drain loop is: waiting for readability, reading wakeup bytes, popping
      items, or gone. */
  datatype Drainer = Waiting | Reading | Popping | Gone

  /** The shared state while any number of producers and one drainer run. `sending` counts the
      producers between their put and their send; `lost` counts wakeups destroyed by a socket
      error. `put` and `handedOver` record what went in and came out. */
  datatype State<Item> = State(
    queue: seq<Item>, bytes: nat, sending: nat, drainer: Drainer, lost: nat,
    put: seq<Item>, handedOver: seq<Item>)

  function Start<Item>(): State<Item> {
    State([], 0, 0, Waiting, 0, [], [])
  }

  /** One atomic action of one thread. `Read` takes any number of the pending bytes; the errors
      are the socket failing under a send or a read. */
  datatype Action<Item> =
    | Put(item: Item)
    | Send
    | SendError
    | Wake
    | Read(count: nat)
    | ReadDry
    | ReadError
    | Pop
    | PopDry
    | Stop

  predicate Enabled<Item>(s: State<Item>, a: Action<Item>) {
    match a
    case Put(_) => true
    case Send => s.sending > 0
    case SendError => s.sending > 0
    case Wake => s.drainer.Waiting? && s.bytes > 0
    case Read(count) => s.drainer.Reading? && 0 < count <= s.bytes
    case ReadDry => s.drainer.Reading? && s.bytes == 0
    case ReadError => s.drainer.Reading?
    case Pop => s.drainer.Popping? && s.queue != []
    case PopDry => s.drainer.Popping? && s.queue == []
    case Stop => s.drainer.Waiting?
  }

  function Do<Item>(s: State<Item>, a: Action<Item>, capacity: nat): State<Item>
    requires Enabled(s, a)
  {
    match a
    case Put(item) => s.(queue := s.queue + [item], put := s.put + [item], sending := s.sending + 1)
    case Send => s.(sending := s.sending - 1, bytes := if s.bytes < capacity then s.bytes + 1 else s.bytes)
    case SendError => s.(sending := s.sending - 1, lost := s.lost + 1)
    case Wake => s.(drainer := Reading)
    case Read(count) => s.(bytes := s.bytes - count)
    case ReadDry => s.(drainer := Popping)
    case ReadError => s.(drainer := Waiting, lost := s.lost + 1)
    case Pop => s.(queue := s.queue[1..], handedOver := s.handedOver + [s.queue[0]])
    case PopDry => s.(drainer := Waiting)
    case Stop => s.(drainer := Gone)
  }

  /** The state after a run: actions of all threads in the order they happen; None when one of
      them was not possible. */
  function After<Item>(run: seq<Action<Item>>, capacity: nat): Option<State<Item>> {
    if run == [] then Some(Start())
    else
      var before, a := After(run[..|run| - 1], capacity), run[|run| - 1];
      if before.Some? && Enabled(before.value, a) then Some(Do(before.value, a, capacity)) else None
  }

  /** Somebody is going to see to the queue. */
  predicate WakeupPending<Item>(s: State<Item>) {
    s.bytes > 0 || s.sending > 0 || s.drainer.Reading? || s.drainer.Popping?
  }

  ghost predicate Invariant<Item>(s: State<Item>, capacity: nat) {
    && s.put == s.handedOver + s.queue
    && s.bytes <= capacity
    && (s.queue != [] && s.lost == 0 && !s.drainer.Gone? ==> WakeupPending(s))
  }

  lemma ActionKeeps<Item>(s: State<Item>, a: Action<Item>, capacity: nat)
    requires capacity > 0 && Invariant(s, capacity) && Enabled(s, a)
    ensures Invariant(Do(s, a, capacity), capacity)
  {}

  /** No lost wakeup, in every interleaving: what was put is exactly what was handed over and
      then what is queued, in order and once each; and, unless the socket has failed or the
      drainer has stopped, a non-empty queue always has a wakeup on its way. */
  lemma {:induction false} NoLostWakeup<Item>(run: seq<Action<Item>>, capacity: nat)
    requires capacity > 0 && After(run, capacity).Some?
    ensures var s := After(run, capacity).value;
      && s.put == s.handedOver + s.queue && s.bytes <= capacity
      && (s.queue != [] && s.lost == 0 && !s.drainer.Gone? ==> WakeupPending(s))
  {
    if run != [] {
      var init := run[..|run| - 1];
      NoLostWakeup(init, capacity);
      ActionKeeps(After(init, capacity).value, run[|run| - 1], capacity);
    }
  }

  // ----- everything gets through -----

  /** Neither a producer in the middle of an enqueue nor the drainer can move on its own. */
  predicate AtRest<Item>(s: State<Item>) {
    s.sending == 0 && s.drainer.Waiting? && s.bytes == 0
  }

  /** When everything has come to rest, everything has been handed over. */
  lemma RestMeansDelivered<Item>(run: seq<Action<Item>>, capacity: nat)
    requires capacity > 0 && After(run, capacity).Some?
    ensures var s := After(run, capacity).value;
      AtRest(s) && s.lost == 0 ==> s.queue == [] && s.handedOver == s.put
  {
    NoLostWakeup(run, capacity);
    var s := After(run, capacity).value;
    if s.queue == [] {
      assert s.handedOver + [] == s.handedOver;
    }
  }

  /** Steps that finish work already begun: everything but new puts, errors and stopping. */
  predicate Finishing<Item>(a: Action<Item>) {
    a.Send? || a.Wake? || a.Read? || a.ReadDry? || a.Pop? || a.PopDry?
  }

  /** How much of a pass of the drainer is still to come. */
  function Phase<Item>(s: State<Item>): nat {
    match s.drainer
    case Reading => 2
    case Popping => if s.bytes > 0 then 4 else 1
    case Waiting => if s.bytes > 0 then 3 else 0
    case Gone => 0
  }

  function Remaining<Item>(s: State<Item>): nat {
    9 * s.sending + 4 * s.bytes + |s.queue| + Phase(s)
  }

  /** The step some thread is able to finish its work with. */
  function NextFinishing<Item>(s: State<Item>): (a: Action<Item>)
    requires !AtRest(s) && !s.drainer.Gone?
    ensures Enabled(s, a) && Finishing(a)
  {
    if s.sending > 0 then Send
    else match s.drainer
      case Reading => if s.bytes > 0 then Read(s.bytes) else ReadDry
      case Popping => if s.queue != [] then Pop else PopDry
      case Waiting => Wake
  }

  /** Finishing steps never go round in circles: each leaves strictly less to do, loses nothing
      and puts nothing, so in whatever order threads take them they come to an end. */
  lemma FinishingProgress<Item>(s: State<Item>, a: Action<Item>, capacity: nat)
    requires Enabled(s, a) && Finishing(a)
    ensures var s' := Do(s, a, capacity);
      && Remaining(s') < Remaining(s)
      && s'.put == s.put && s'.lost == s.lost && (s'.drainer.Gone? <==> s.drainer.Gone?)
  {}

  lemma AfterSnoc<Item>(run: seq<Action<Item>>, capacity: nat, a: Action<Item>)
    requires After(run, capacity).Some? && Enabled(After(run, capacity).value, a)
    ensures After(run + [a], capacity) == Some(Do(After(run, capacity).value, a, capacity))
  {}

  /** Any stretch of finishing steps is short, and unless it ended at rest it can be continued. */
  lemma {:induction false} FinishingEnds<Item>(run: seq<Action<Item>>, more: seq<Action<Item>>, capacity: nat)
    requires After(run, capacity).Some? && After(run + more, capacity).Some?
    requires forall i | 0 <= i < |more| :: Finishing(more[i])
    ensures var (s, end) := (After(run, capacity).value, After(run + more, capacity).value);
      && |more| + Remaining(end) <= Remaining(s)
      && end.put == s.put && end.lost == s.lost && (end.drainer.Gone? <==> s.drainer.Gone?)
      && (!AtRest(end) && !s.drainer.Gone? ==> exists a :: Finishing(a) && Enabled(end, a))
    decreases |more|
  {
    if more == [] {
      assert run + more == run;
    } else {
      var init, a := more[..|more| - 1], more[|more| - 1];
      assert (run + more)[..|run + more| - 1] == run + init;
      FinishingEnds(run, init, capacity);
      FinishingProgress(After(run + init, capacity).value, a, capacity);
    }
    var end := After(run + more, capacity).value;
    if !AtRest(end) && !end.drainer.Gone? {
      assert Enabled(end, NextFinishing(end)) && Finishing(NextFinishing(end));
    }
  }

  // ----- where it does fail -----

  /** An item is queued, the drainer is there, and nobody is going to see to it. */
  predicate Stranded<Item>(s: State<Item>) {
    s.queue != [] && !s.drainer.Gone? && !WakeupPending(s)
  }

  /** The action destroys the last wakeup there is: a read that fails with no wakeup left or to
      come, or a send that fails with none left and nobody else sending, while the drainer waits. */
  predicate Strands<Item>(s: State<Item>, a: Action<Item>) {
    && s.queue != [] && s.bytes == 0
    && ((a.ReadError? && s.sending == 0) || (a.SendError? && s.sending == 1 && s.drainer.Waiting?))
  }

  lemma ActionStrandsExactly<Item>(s: State<Item>, a: Action<Item>, capacity: nat)
    requires capacity > 0 && Enabled(s, a)
    ensures Stranded(Do(s, a, capacity)) <==> Strands(s, a)
  {}

  /** After any run, something is stranded if and only if the last action was one of those. So
      nothing strands without a socket error; and what is stranded stays so just until
      something is enqueued or the drainer stops, for nothing else can happen. */
  lemma StrandedExactly<Item>(run: seq<Action<Item>>, capacity: nat)
    requires capacity > 0 && After(run, capacity).Some?
    ensures var s := After(run, capacity).value;
      && (Stranded(s) <==> run != [] && Strands(After(run[..|run| - 1], capacity).value, run[|run| - 1]))
      && (Stranded(s) ==> forall a :: Enabled(s, a) ==> a.Put? || a.Stop?)
  {
    if run != [] {
      ActionStrandsExactly(After(run[..|run| - 1], capacity).value, run[|run| - 1], capacity);
    }
  }

  lemma {:induction false} FinishingStrandsNothing<Item>(run: seq<Action<Item>>, more: seq<Action<Item>>, capacity: nat)
    requires capacity > 0 && After(run, capacity).Some? && After(run + more, capacity).Some?
    requires forall i | 0 <= i < |more| :: Finishing(more[i])
    ensures Stranded(After(run + more, capacity).value) <==> Stranded(After(run, capacity).value) && more == []
  {
    if more == [] {
      assert run + more == run;
    } else {
      var a := more[|more| - 1];
      assert (run + more)[..|run + more| - 1] == run + more[..|more| - 1];
      ActionStrandsExactly(After(run + more[..|more| - 1], capacity).value, a, capacity);
      StrandedExactly(run, capacity);
    }
  }

  /** Delivery: if the threads only finish what they have begun, in any order, then when they
      cannot go on every event put so far has been handed over, exactly if nothing was stranded
      when they set out - whatever errors there were before. */
  lemma {:induction false} EverythingGetsThrough<Item>(run: seq<Action<Item>>, more: seq<Action<Item>>, capacity: nat)
    requires capacity > 0 && After(run, capacity).Some? && After(run + more, capacity).Some?
    requires forall i | 0 <= i < |more| :: Finishing(more[i])
    requires !After(run, capacity).value.drainer.Gone?
    requires !exists a :: Finishing(a) && Enabled(After(run + more, capacity).value, a)
    ensures var (s, end) := (After(run, capacity).value, After(run + more, capacity).value);
      (end.queue == [] && end.handedOver == s.put) <==> !Stranded(s)
  {
    FinishingEnds(run, more, capacity);
    FinishingStrandsNothing(run, more, capacity);
    NoLostWakeup(run + more, capacity);
    var end := After(run + more, capacity).value;
    assert end.handedOver + [] == end.handedOver;
    if Stranded(After(run, capacity).value) {
      assert more == [] by {
        if more != [] {
          assert Finishing(more[0]);
          FirstIsEnabled(run, more, capacity);
          StrandedExactly(run, capacity);
        }
      }
    }
  }

  lemma {:induction false} FirstIsEnabled<Item>(run: seq<Action<Item>>, more: seq<Action<Item>>, capacity: nat)
    requires more != [] && After(run, capacity).Some? && After(run + more, capacity).Some?
    ensures Enabled(After(run, capacity).value, more[0])
    decreases |more|
  {
    assert (run + more)[..|run + more| - 1] == run + more[..|more| - 1];
    if |more| == 1 {
      assert run + more[..0] == run;
    } else {
      FirstIsEnabled(run, more[..|more| - 1], capacity);
    }
  }

  /** One read error is enough to lose a wakeup: the bytes are gone, the item stays queued, and
      nobody is going to look at it until something else is enqueued. */
  lemma ReadErrorStrands<Item>(item: Item, capacity: nat)
    requires capacity > 0
    ensures var s := After([Put(item), Send, Wake, Read(1), ReadError], capacity);
      s.Some? && s.value.queue == [item] && !s.value.drainer.Gone? && !WakeupPending(s.value)
  {
    var r0: seq<Action<Item>> := [];
    AfterSnoc(r0, capacity, Put(item));
    var r1 := r0 + [Put(item)];
    AfterSnoc(r1, capacity, Send);
    var r2 := r1 + [Send];
    AfterSnoc(r2, capacity, Wake);
    var r3 := r2 + [Wake];
    AfterSnoc(r3, capacity, Read(1));
    var r4 := r3 + [Read(1)];
    AfterSnoc(r4, capacity, ReadError);
    assert r4 + [ReadError] == [Put(item), Send, Wake, Read(1), ReadError];
  }

  /** A send that fails is enough as well. */
  lemma SendErrorStrands<Item>(item: Item, capacity: nat)
    ensures var s := After([Put(item), SendError], capacity);
      s.Some? && s.value.queue == [item] && !s.value.drainer.Gone? && !WakeupPending(s.value)
  {
    var r0: seq<Action<Item>> := [];
    AfterSnoc(r0, capacity, Put(item));
    AfterSnoc(r0 + [Put(item)], capacity, SendError);
    assert r0 + [Put(item)] + [SendError] == [Put(item), SendError];
  }
}
