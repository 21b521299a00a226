/** The fan-out router (src/router.rs) over bounded channels, for every interleaving of sends, deliveries,
    receives and closes. */
module Routing {

  /** One consumer's channel. */
  datatype Channel<T> = Channel(capacity: nat, queue: seq<T>, closed: bool)

  datatype Attempt = Delivered | Full | Closed

  function TrySend<T>(c: Channel<T>, packet: T): (Channel<T>, Attempt) {
    if c.closed then (c, Closed)
    else if |c.queue| >= c.capacity then (c, Full)
    else (c.(queue := c.queue + [packet]), Delivered)
  }

  class Router<T> {
    var channels: seq<Channel<T>>

    constructor ()
      ensures channels == []
    {
      channels := [];
    }

    method AddConsumer(bufferSize: nat)
      modifies this
      ensures channels == old(channels) + [Channel(bufferSize, [], false)]
    {
      channels := channels + [Channel(bufferSize, [], false)];
    }

    /** One round of the receive loop: each channel is tried on its own. */
    method Dispatch(packet: T) returns (attempts: seq<Attempt>)
      modifies this
      ensures |channels| == |old(channels)| == |attempts|
      ensures forall k :: 0 <= k < |channels| ==> (channels[k], attempts[k]) == TrySend(old(channels)[k], packet)
    {
      attempts := [];
      for i := 0 to |channels|
        invariant |channels| == |old(channels)| && |attempts| == i
        invariant forall k :: 0 <= k < i ==> (channels[k], attempts[k]) == TrySend(old(channels)[k], packet)
        invariant forall k :: i <= k < |channels| ==> channels[k] == old(channels)[k]
      {
        var (next, attempt) := TrySend(channels[i], packet);
        channels := channels[i := next];
        attempts := attempts + [attempt];
      }
    }
  }

  // ----- One consumer -----

  /** A consumer's channel and what it has received. */
  datatype Consumer<T> = Consumer(channel: Channel<T>, received: seq<T>)

  /** What can happen to one consumer: the router offers it a packet, it takes one packet from its
      queue, or it closes. */
  datatype Own<T> = Offer(packet: T) | Receive | Close

  function Step<T>(c: Consumer<T>, e: Own<T>): Consumer<T> {
    match e
    case Offer(packet) => c.(channel := TrySend(c.channel, packet).0)
    case Receive =>
      if c.channel.queue == [] then c
      else c.(channel := c.channel.(queue := c.channel.queue[1..]), received := c.received + [c.channel.queue[0]])
    case Close => c.(channel := c.channel.(closed := true))
  }

  function Alone<T>(c: Consumer<T>, owns: seq<Own<T>>): Consumer<T> {
    if owns == [] then c else Step(Alone(c, owns[..|owns| - 1]), owns[|owns| - 1])
  }

  /** Everything that reached the consumer, received or still queued. */
  function Reached<T>(c: Consumer<T>): seq<T> {
    c.received + c.channel.queue
  }

  function Offered<T>(owns: seq<Own<T>>): seq<T> {
    if owns == [] then []
    else
      var n := |owns| - 1;
      Offered(owns[..n]) + if owns[n].Offer? then [owns[n].packet] else []
  }

  /** The consumer's own channel as each offer found it. */
  function Seen<T>(c: Consumer<T>, owns: seq<Own<T>>): (seen: seq<Channel<T>>)
    ensures |seen| == |Offered(owns)|
  {
    if owns == [] then []
    else
      var n := |owns| - 1;
      Seen(c, owns[..n]) + if owns[n].Offer? then [Alone(c, owns[..n]).channel] else []
  }

  /** Neither closed nor full. */
  predicate HasRoom<T>(c: Channel<T>) {
    !c.closed && |c.queue| < c.capacity
  }

  /** The items that found room, in order. */
  function Select<T>(items: seq<T>, seen: seq<Channel<T>>): seq<T>
    requires |items| == |seen|
  {
    if items == [] then []
    else
      var n := |items| - 1;
      Select(items[..n], seen[..n]) + if HasRoom(seen[n]) then [items[n]] else []
  }

  function Refusals<T>(seen: seq<Channel<T>>): nat {
    if seen == [] then 0
    else
      var n := |seen| - 1;
      Refusals(seen[..n]) + if HasRoom(seen[n]) then 0 else 1
  }

  /** What reached a consumer is exactly what was offered while its own channel had room, in the order of the
      offers: an offer is lost only if at that step its own queue was full or closed. */
  lemma {:induction false} NothingElseIsLost<T>(c: Consumer<T>, owns: seq<Own<T>>)
    ensures Reached(Alone(c, owns)) == Reached(c) + Select(Offered(owns), Seen(c, owns))
  {
    hide Step, Reached, HasRoom;
    if owns == [] {
      assert Reached(c) + [] == Reached(c);
    } else {
      var n := |owns| - 1;
      NothingElseIsLost(c, owns[..n]);
      var before, e := Alone(c, owns[..n]), owns[n];
      StepKeepsOrder(before, e);
      if e.Offer? {
        SelectSnoc(Offered(owns[..n]), Seen(c, owns[..n]), e.packet, before.channel);
      } else {
        assert Offered(owns[..n]) + [] == Offered(owns[..n]) && Seen(c, owns[..n]) + [] == Seen(c, owns[..n]);
      }
    }
  }

  lemma SelectSnoc<T>(items: seq<T>, seen: seq<Channel<T>>, item: T, channel: Channel<T>)
    requires |items| == |seen|
    ensures Select(items + [item], seen + [channel])
         == Select(items, seen) + if HasRoom(channel) then [item] else []
  {
    assert (items + [item])[..|items|] == items && (seen + [channel])[..|items|] == seen;
  }

  lemma StepKeepsOrder<T>(c: Consumer<T>, e: Own<T>)
    ensures Reached(Step(c, e)) == Reached(c) + if e.Offer? && HasRoom(c.channel) then [e.packet] else []
  {
    if e.Receive? && c.channel.queue != [] {
      assert c.channel.queue == [c.channel.queue[0]] + c.channel.queue[1..];
    }
  }

  /** An order-preserving selection of one sequence from another. */
  ghost predicate Subsequence<T(!new)>(small: seq<T>, large: seq<T>)
    decreases |large|
  {
    if large == [] then small == []
    else
      var n := |large| - 1;
      || Subsequence(small, large[..n])
      || (small != [] && small[|small| - 1] == large[n] && Subsequence(small[..|small| - 1], large[..n]))
  }

  lemma {:induction false} SelectIsSubsequence<T(!new)>(items: seq<T>, seen: seq<Channel<T>>)
    requires |items| == |seen|
    ensures Subsequence(Select(items, seen), items)
    ensures |Select(items, seen)| + Refusals(seen) == |items|
    ensures Refusals(seen) == 0 ==> Select(items, seen) == items
  {
    hide Subsequence, HasRoom, Select, Refusals;
    if items == [] {
      NothingSelected(items, seen);
    } else {
      var n := |items| - 1;
      var small := Select(items[..n], seen[..n]);
      SelectIsSubsequence(items[..n], seen[..n]);
      SubsequenceSnoc(small, items[..n], items[n]);
      assert items == items[..n] + [items[n]] && seen == seen[..n] + [seen[n]];
      SelectSnoc(items[..n], seen[..n], items[n], seen[n]);
      RefusalsSnoc(seen[..n], seen[n]);
      assert small + [] == small;
    }
  }

  lemma NothingSelected<T(!new)>(items: seq<T>, seen: seq<Channel<T>>)
    requires items == [] && seen == []
    ensures Select(items, seen) == [] && Refusals(seen) == 0 && Subsequence(Select(items, seen), items)
  {
  }

  lemma RefusalsSnoc<T>(seen: seq<Channel<T>>, channel: Channel<T>)
    ensures Refusals(seen + [channel]) == Refusals(seen) + if HasRoom(channel) then 0 else 1
  {
    assert (seen + [channel])[..|seen|] == seen;
  }

  lemma SubsequenceSnoc<T(!new)>(small: seq<T>, large: seq<T>, x: T)
    requires Subsequence(small, large)
    ensures Subsequence(small, large + [x]) && Subsequence(small + [x], large + [x])
  {
    assert (small + [x])[..|small|] == small && (large + [x])[..|large|] == large;
  }

  // ----- The router and everyone around it -----

  /** Where the receive loop stands: waiting for a packet, or trying consumer next with the one in hand. */
  datatype Phase<T> = Waiting | Trying(packet: T, next: nat)

  /** The source channel, all that was sent into it, all that the router received from it, the loop, and
      the consumers. */
  datatype System<T> = System(
    source: Channel<T>,
    sent: seq<T>,
    arrivals: seq<T>,
    phase: Phase<T>,
    consumers: seq<Consumer<T>>)

  /** A step anywhere: an interface sends a packet, all senders are gone, the router receives a packet, the
      router tries the next consumer, or a consumer receives or closes. */
  datatype Event<T> =
    | Send(packet: T)
    | SourceCloses
    | Take
    | TryNext
    | ConsumerReceives(taker: nat)
    | ConsumerCloses(closer: nat)

  /** The loop goes on to consumer next, or back to the source after the last one. */
  function GoOn<T>(packet: T, next: nat, n: nat): Phase<T> {
    if next < n then Trying(packet, next) else Waiting
  }

  function Touch<T>(s: System<T>, k: nat, e: Own<T>): System<T> {
    if k < |s.consumers| then s.(consumers := s.consumers[k := Step(s.consumers[k], e)]) else s
  }

  function Happen<T>(s: System<T>, e: Event<T>): System<T> {
    match e
    case Send(packet) =>
      var (source, attempt) := TrySend(s.source, packet);
      if attempt.Delivered? then s.(source := source, sent := s.sent + [packet]) else s
    case SourceCloses => s.(source := s.source.(closed := true))
    case Take =>
      if s.phase.Trying? || s.source.queue == [] then s
      else
        var packet := s.source.queue[0];
        s.(source := s.source.(queue := s.source.queue[1..]), arrivals := s.arrivals + [packet],
           phase := GoOn(packet, 0, |s.consumers|))
    case TryNext =>
      if s.phase.Waiting? then s
      else
        Touch(s, s.phase.next, Offer(s.phase.packet)).(
          phase := GoOn(s.phase.packet, s.phase.next + 1, |s.consumers|))
    case ConsumerReceives(taker) => Touch(s, taker, Receive)
    case ConsumerCloses(closer) => Touch(s, closer, Close)
  }

  function Run<T>(start: System<T>, events: seq<Event<T>>): (end: System<T>)
    ensures |end.consumers| == |start.consumers|
  {
    if events == [] then start else Happen(Run(start, events[..|events| - 1]), events[|events| - 1])
  }

  lemma {:induction false} RunConcat<T>(start: System<T>, a: seq<Event<T>>, b: seq<Event<T>>)
    ensures Run(start, a + b) == Run(Run(start, a), b)
    decreases |b|
  {
    hide Happen;
    if b == [] {
      assert a + b == a;
    } else {
      var n := |b| - 1;
      RunConcat(start, a, b[..n]);
      assert (a + b)[..|a + b| - 1] == a + b[..n];
    }
  }

  /** The router before its first packet. */
  predicate Fresh<T(==)>(s: System<T>) {
    s.phase.Waiting? && s.arrivals == [] && s.sent == [] && s.source.queue == []
  }

  /** The loop only ever holds the newest arrival, with consumers left to try. */
  predicate Sound<T(==)>(s: System<T>) {
    s.phase.Trying? ==>
      s.phase.next < |s.consumers| && s.arrivals != [] && s.arrivals[|s.arrivals| - 1] == s.phase.packet
  }

  /** The loop has not come to consumer k with the packet in hand. */
  predicate Untried<T>(s: System<T>, k: nat) {
    s.phase.Trying? && s.phase.next <= k
  }

  /** The arrivals that consumer k has been tried with. */
  function Served<T>(s: System<T>, k: nat): seq<T> {
    if Untried(s, k) && s.arrivals != [] then s.arrivals[..|s.arrivals| - 1] else s.arrivals
  }

  // ----- What the loop does for one consumer -----

  /** What a step means for consumer k. */
  function OwnStep<T>(s: System<T>, e: Event<T>, k: nat): seq<Own<T>> {
    match e
    case TryNext => if s.phase.Trying? && s.phase.next == k then [Offer(s.phase.packet)] else []
    case ConsumerReceives(taker) => if taker == k then [Receive] else []
    case ConsumerCloses(closer) => if closer == k then [Close] else []
    case _ => []
  }

  /** The run as consumer k sees it. */
  function View<T>(start: System<T>, events: seq<Event<T>>, k: nat): seq<Own<T>> {
    if events == [] then []
    else
      var n := |events| - 1;
      View(start, events[..n], k) + OwnStep(Run(start, events[..n]), events[n], k)
  }

  lemma {:induction false} ViewIsAll<T>(start: System<T>, events: seq<Event<T>>, k: nat)
    requires k < |start.consumers|
    ensures Run(start, events).consumers[k] == Alone(start.consumers[k], View(start, events, k))
  {
    hide Step, Happen, OwnStep;
    if events != [] {
      var n := |events| - 1;
      ViewIsAll(start, events[..n], k);
      HappenToOne(Run(start, events[..n]), events[n], k);
      AloneConcat(start.consumers[k], View(start, events[..n], k), OwnStep(Run(start, events[..n]), events[n], k));
    }
  }

  lemma HappenToOne<T>(s: System<T>, e: Event<T>, k: nat)
    requires k < |s.consumers|
    ensures |Happen(s, e).consumers| == |s.consumers| && |OwnStep(s, e, k)| <= 1
    ensures Happen(s, e).consumers[k]
         == if OwnStep(s, e, k) == [] then s.consumers[k] else Step(s.consumers[k], OwnStep(s, e, k)[0])
  {
    hide Step;
  }

  lemma AloneConcat<T>(c: Consumer<T>, owns: seq<Own<T>>, more: seq<Own<T>>)
    requires |more| <= 1
    ensures Alone(c, owns + more) == if more == [] then Alone(c, owns) else Step(Alone(c, owns), more[0])
  {
    hide Step;
    if more == [] {
      assert owns + more == owns;
    } else {
      assert (owns + more)[..|owns|] == owns;
    }
  }

  /** The loop offers every arrival to every consumer, once and in order: only the packet in hand may still
      be to come. */
  lemma {:induction false} EveryoneIsOffered<T>(start: System<T>, events: seq<Event<T>>, k: nat)
    requires Fresh(start) && k < |start.consumers|
    ensures Sound(Run(start, events))
    ensures Offered(View(start, events, k)) == Served(Run(start, events), k)
  {
    hide Step, Happen, OwnStep, Served, Sound;
    if events == [] {
      NothingServed(start, k);
    } else {
      var n := |events| - 1;
      EveryoneIsOffered(start, events[..n], k);
      var before := Run(start, events[..n]);
      ServedStep(before, events[n], k);
      HappenToOne(before, events[n], k);
      OfferedConcat(View(start, events[..n], k), OwnStep(before, events[n], k));
    }
  }

  lemma NothingServed<T>(s: System<T>, k: nat)
    requires Fresh(s)
    ensures Sound(s) && Served(s, k) == []
  {
  }

  lemma ServedStep<T>(s: System<T>, e: Event<T>, k: nat)
    requires Sound(s) && k < |s.consumers|
    ensures Sound(Happen(s, e))
    ensures Served(Happen(s, e), k) == Served(s, k) + Offered(OwnStep(s, e, k))
  {
    hide Sound, Served, Offered, Happen, OwnStep;
    if e.Take? {
      ServedTake(s, k);
    } else if e.TryNext? {
      ServedTry(s, k);
    } else {
      ServedOther(s, e, k);
    }
  }

  /** Served and Sound speak only of the arrivals and the loop. */
  lemma SameLoop<T>(s: System<T>, t: System<T>, k: nat)
    requires t.phase == s.phase && t.arrivals == s.arrivals && |t.consumers| == |s.consumers|
    ensures Served(t, k) == Served(s, k) && (Sound(s) <==> Sound(t))
  {
  }

  lemma NoOffer<T>(s: System<T>, e: Event<T>, k: nat)
    requires e.TryNext? ==> s.phase.Waiting? || s.phase.next != k
    ensures Offered(OwnStep(s, e, k)) == []
  {
    assert Offered<T>([]) == [] && Offered<T>([Receive]) == [] && Offered<T>([Close]) == [];
  }

  lemma TouchKeepsLoop<T>(s: System<T>, k: nat, e: Own<T>)
    ensures var t := Touch(s, k, e);
            && t.phase == s.phase && t.arrivals == s.arrivals && |t.consumers| == |s.consumers|
            && t.source == s.source && t.sent == s.sent
  {
    hide Step;
  }

  lemma ServedOther<T>(s: System<T>, e: Event<T>, k: nat)
    requires Sound(s) && !e.Take? && !e.TryNext?
    ensures Sound(Happen(s, e))
    ensures Served(Happen(s, e), k) == Served(s, k) + Offered(OwnStep(s, e, k))
  {
    hide Sound, Served, Offered, Touch, OwnStep;
    NoOffer(s, e, k);
    if e.ConsumerReceives? {
      TouchKeepsLoop(s, e.taker, Receive);
    } else if e.ConsumerCloses? {
      TouchKeepsLoop(s, e.closer, Close);
    }
    SameLoop(s, Happen(s, e), k);
    assert Served(s, k) + [] == Served(s, k);
  }

  lemma ServedTake<T>(s: System<T>, k: nat)
    requires Sound(s) && k < |s.consumers|
    ensures Sound(Happen(s, Take)) && Served(Happen(s, Take), k) == Served(s, k) + Offered(OwnStep(s, Take, k))
  {
    hide Offered, OwnStep;
    NoOffer(s, Take, k);
    assert Served(s, k) + [] == Served(s, k);
    if s.phase.Waiting? && s.source.queue != [] {
      var packet := s.source.queue[0];
      assert (s.arrivals + [packet])[..|s.arrivals|] == s.arrivals;
    }
  }

  lemma ServedTry<T>(s: System<T>, k: nat)
    requires Sound(s) && k < |s.consumers|
    ensures Sound(Happen(s, TryNext))
    ensures Served(Happen(s, TryNext), k) == Served(s, k) + Offered(OwnStep(s, TryNext, k))
  {
    hide Offered, OwnStep, Touch;
    if s.phase.Trying? {
      TouchKeepsLoop(s, s.phase.next, Offer(s.phase.packet));
      if s.phase.next == k {
        OwnOffer(s, k);
        assert s.arrivals == s.arrivals[..|s.arrivals| - 1] + [s.phase.packet];
      } else {
        NoOffer(s, TryNext, k);
        assert Served(s, k) + [] == Served(s, k);
      }
    } else {
      NoOffer(s, TryNext, k);
      assert Served(s, k) + [] == Served(s, k);
    }
  }

  lemma OwnOffer<T>(s: System<T>, k: nat)
    requires s.phase.Trying? && s.phase.next == k
    ensures Offered(OwnStep(s, TryNext, k)) == [s.phase.packet]
  {
    assert [Offer(s.phase.packet)][..0] == [];
  }

  lemma OfferedConcat<T>(owns: seq<Own<T>>, more: seq<Own<T>>)
    requires |more| <= 1
    ensures Offered(owns + more) == Offered(owns) + Offered(more)
  {
    if more == [] {
      assert owns + more == owns && Offered(owns) + [] == Offered(owns);
    } else {
      assert (owns + more)[..|owns|] == owns && more[..0] == [];
    }
  }

  // ----- The promises -----

  /** For every interleaving: what has reached a consumer is the router's own arrivals without those that
      came to it while its own channel was full or closed; only the packet in hand may still be to come. */
  lemma FanOut<T(!new)>(start: System<T>, events: seq<Event<T>>, k: nat)
    requires Fresh(start) && k < |start.consumers| && Reached(start.consumers[k]) == []
    ensures var s, seen := Run(start, events), Seen(start.consumers[k], View(start, events, k));
            var reached := Reached(s.consumers[k]);
            && |seen| == |Served(s, k)| && reached == Select(Served(s, k), seen)
            && Subsequence(reached, s.arrivals)
            && |reached| + Refusals(seen) + (if Untried(s, k) then 1 else 0) == |s.arrivals|
  {
    hide Reached, View, Run, Seen, Select, Refusals, Offered;
    ViewIsAll(start, events, k);
    EveryoneIsOffered(start, events, k);
    var seen := Seen(start.consumers[k], View(start, events, k));
    NothingElseIsLost(start.consumers[k], View(start, events, k));
    SelectIsSubsequence(Offered(View(start, events, k)), seen);
    assert [] + Select(Offered(View(start, events, k)), seen) == Select(Offered(View(start, events, k)), seen);
  }

  /** Between two packets a consumer has everything that ever arrived exactly when its channel had room at
      every try. */
  lemma NothingMissingIff<T(!new)>(start: System<T>, events: seq<Event<T>>, k: nat)
    requires Fresh(start) && k < |start.consumers| && Reached(start.consumers[k]) == []
    requires Run(start, events).phase.Waiting?
    ensures Reached(Run(start, events).consumers[k]) == Run(start, events).arrivals
       <==> Refusals(Seen(start.consumers[k], View(start, events, k))) == 0
  {
    hide Reached, View, Run, Seen, Select, Refusals, Subsequence, Fresh;
    FanOut(start, events, k);
    SelectIsSubsequence(Served(Run(start, events), k), Seen(start.consumers[k], View(start, events, k)));
  }

  /** The router receives what was sent, in order; the rest waits in the source channel. */
  lemma {:induction false} SourceInOrder<T>(start: System<T>, events: seq<Event<T>>)
    requires Fresh(start)
    ensures var s := Run(start, events);
            s.sent == s.arrivals + s.source.queue
  {
    hide Happen;
    if events != [] {
      var n := |events| - 1;
      SourceInOrder(start, events[..n]);
      SourceStep(Run(start, events[..n]), events[n]);
    }
  }

  lemma SourceStep<T>(s: System<T>, e: Event<T>)
    requires s.sent == s.arrivals + s.source.queue
    ensures Happen(s, e).sent == Happen(s, e).arrivals + Happen(s, e).source.queue
  {
    hide Touch;
    if e.Take? && s.source.queue != [] {
      assert s.source.queue == [s.source.queue[0]] + s.source.queue[1..];
    } else if e.TryNext? && s.phase.Trying? {
      TouchKeepsLoop(s, s.phase.next, Offer(s.phase.packet));
    } else if e.ConsumerReceives? {
      TouchKeepsLoop(s, e.taker, Receive);
    } else if e.ConsumerCloses? {
      TouchKeepsLoop(s, e.closer, Close);
    }
  }

  // ----- Isolation -----

  /** Two systems that differ at most in the other consumers. */
  predicate SameFor<T(==)>(s: System<T>, t: System<T>, k: nat) {
    && s.source == t.source && s.sent == t.sent && s.arrivals == t.arrivals && s.phase == t.phase
    && |s.consumers| == |t.consumers| && k < |s.consumers| && s.consumers[k] == t.consumers[k]
  }

  /** The run without anything the other consumers do. */
  function WithoutOthers<T>(events: seq<Event<T>>, k: nat): seq<Event<T>> {
    if events == [] then []
    else
      var n := |events| - 1;
      WithoutOthers(events[..n], k) + if OfOthers(events[n], k) then [] else [events[n]]
  }

  predicate OfOthers<T>(e: Event<T>, k: nat) {
    (e.ConsumerReceives? && e.taker != k) || (e.ConsumerCloses? && e.closer != k)
  }

  /** Isolation: whatever the other consumers' capacities, queues, receives and closes, the router and
      consumer k end as if the others had done nothing at all. */
  lemma {:induction false} ConsumersAreIsolated<T>(start: System<T>, other: System<T>, events: seq<Event<T>>, k: nat)
    requires SameFor(start, other, k)
    ensures SameFor(Run(start, events), Run(other, WithoutOthers(events, k)), k)
  {
    hide Step, Happen, SameFor, OfOthers;
    if events != [] {
      var n := |events| - 1;
      ConsumersAreIsolated(start, other, events[..n], k);
      var mine := WithoutOthers(events[..n], k);
      if OfOthers(events[n], k) {
        assert mine + [] == mine;
        OthersStep(Run(start, events[..n]), Run(other, mine), events[n], k);
      } else {
        assert (mine + [events[n]])[..|mine|] == mine;
        SharedStep(Run(start, events[..n]), Run(other, mine), events[n], k);
      }
    }
  }

  lemma OthersStep<T>(s: System<T>, t: System<T>, e: Event<T>, k: nat)
    requires SameFor(s, t, k) && OfOthers(e, k)
    ensures SameFor(Happen(s, e), t, k)
  {
    hide Step;
  }

  lemma SharedStep<T>(s: System<T>, t: System<T>, e: Event<T>, k: nat)
    requires SameFor(s, t, k) && !OfOthers(e, k)
    ensures SameFor(Happen(s, e), Happen(t, e), k)
  {
    hide Step;
  }

  // ----- One undisturbed round -----

  function Tries<T>(m: nat): (events: seq<Event<T>>)
    ensures |events| == m
  {
    if m == 0 then [] else Tries(m - 1) + [TryNext]
  }

  lemma {:induction false} RoundSoFar<T>(start: System<T>, packet: T, m: nat)
    requires start.phase == Trying(packet, 0) && m <= |start.consumers| && start.consumers != []
    ensures var s := Run(start, Tries(m));
            && s == start.(phase := GoOn(packet, m, |start.consumers|), consumers := s.consumers)
            && (forall k :: 0 <= k < m ==> s.consumers[k] == Step(start.consumers[k], Offer(packet)))
            && (forall k :: m <= k < |start.consumers| ==> s.consumers[k] == start.consumers[k])
    decreases m
  {
    hide Step, Happen;
    if m > 0 {
      RoundSoFar(start, packet, m - 1);
      var before := Run(start, Tries(m - 1));
      assert Tries<T>(m)[..m - 1] == Tries<T>(m - 1);
      TryStep(before, packet, m - 1);
    }
  }

  lemma TryStep<T>(s: System<T>, packet: T, m: nat)
    requires s.phase == Trying(packet, m) && m < |s.consumers|
    ensures Happen(s, TryNext) == s.(phase := GoOn(packet, m + 1, |s.consumers|),
                                     consumers := s.consumers[m := Step(s.consumers[m], Offer(packet))])
  {
    hide Step;
  }

  /** Tried through without interruption, a packet leaves every channel as Dispatch leaves it, and the loop
      back at the source. */
  lemma RoundIsDispatch<T>(start: System<T>, packet: T, k: nat)
    requires start.phase == Trying(packet, 0) && k < |start.consumers|
    ensures var end := Run(start, Tries(|start.consumers|));
            && end.phase.Waiting?
            && end.consumers[k] == start.consumers[k].(channel := TrySend(start.consumers[k].channel, packet).0)
  {
    RoundSoFar(start, packet, |start.consumers|);
  }
}
