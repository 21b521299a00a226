/** The viscous-delay queue (src/digipeater/viscous.rs), with an explicit clock. */
module Viscous {
  import opened Clock
  import opened Packets

  /** A digipeated packet that waits for its delay to expire. */
  datatype Pending = Pending(packet: Packet, digipeated: string, addedAt: nat, delay: nat)

  predicate Due(e: Pending, now: nat) {
    Elapsed(now, e.addedAt) >= e.delay
  }

  // ----- One operation -----

  function SwapRemove(s: seq<Pending>, i: nat): seq<Pending>
    requires i < |s|
  {
    s[i := s[|s| - 1]][..|s| - 1]
  }

  /** What the drain loop leaves and takes, from index i on. */
  datatype Drained = Drained(kept: seq<Pending>, expired: seq<Pending>)

  function DrainFrom(pending: seq<Pending>, i: nat, now: nat): Drained
    decreases |pending| - i
  {
    if i >= |pending| then Drained(pending, [])
    else if Due(pending[i], now) then
      var rest := DrainFrom(SwapRemove(pending, i), i, now);
      Drained(rest.kept, [pending[i]] + rest.expired)
    else DrainFrom(pending, i + 1, now)
  }

  /** The entries that a heard packet does not cancel, in order. */
  function Retained(pending: seq<Pending>, key: DupeKey): (kept: seq<Pending>)
    ensures |kept| <= |pending|
  {
    if pending == [] then []
    else
      var n := |pending| - 1;
      Retained(pending[..n], key) + if KeyOf(pending[n].packet) != key then [pending[n]] else []
  }

  function Cancelled(pending: seq<Pending>, key: DupeKey): seq<Pending> {
    if pending == [] then []
    else
      var n := |pending| - 1;
      Cancelled(pending[..n], key) + if KeyOf(pending[n].packet) == key then [pending[n]] else []
  }

  /** What a drain hands to the transmitter. */
  function Outputs(expired: seq<Pending>): (out: seq<(Packet, string)>)
    ensures |out| == |expired|
    ensures forall i :: 0 <= i < |out| ==> out[i].0 == expired[i].packet && out[i].1 == expired[i].digipeated
  {
    seq(|expired|, i requires 0 <= i < |expired| => (expired[i].packet, expired[i].digipeated))
  }

  lemma SwapRemoveTakesOne(s: seq<Pending>, i: nat)
    requires i < |s|
    ensures multiset(s) == multiset(SwapRemove(s, i)) + multiset{s[i]}
    ensures SwapRemove(s, i)[..i] == s[..i]
  {
    var n := |s| - 1;
    var last := s[n];
    assert s == s[..n] + [last];
    if i < n {
      assert SwapRemove(s, i) == s[..n][i := last];
      assert multiset(s[..n][i := last]) == multiset(s[..n]) - multiset{s[i]} + multiset{last};
    } else {
      assert SwapRemove(s, i) == s[..n];
    }
  }

  /** The drain parts the queue into what is due and what is not; nothing is lost or doubled. */
  lemma {:induction false} DrainParts(pending: seq<Pending>, i: nat, now: nat)
    requires i <= |pending|
    requires forall k :: 0 <= k < i ==> !Due(pending[k], now)
    ensures var r := DrainFrom(pending, i, now);
            && multiset(pending) == multiset(r.kept) + multiset(r.expired)
            && (forall e :: e in r.expired ==> Due(e, now))
            && (forall e :: e in r.kept ==> !Due(e, now))
    decreases |pending| - i
  {
    hide Due;
    if i < |pending| {
      if Due(pending[i], now) {
        var next := SwapRemove(pending, i);
        SwapRemoveTakesOne(pending, i);
        assert forall k :: 0 <= k < i ==> next[..i][k] == pending[..i][k];
        DrainParts(next, i, now);
      } else {
        DrainParts(pending, i + 1, now);
      }
    }
  }

  /** A heard packet parts the queue by key. */
  lemma {:induction false} CancelParts(pending: seq<Pending>, key: DupeKey)
    ensures multiset(pending) == multiset(Retained(pending, key)) + multiset(Cancelled(pending, key))
    ensures |pending| == |Retained(pending, key)| + |Cancelled(pending, key)|
  {
    hide KeyOf;
    if pending != [] {
      var n := |pending| - 1;
      CancelParts(pending[..n], key);
      CancelSnoc(pending, key);
    }
  }

  lemma CancelSnoc(pending: seq<Pending>, key: DupeKey)
    requires pending != []
    ensures var n := |pending| - 1;
            var one := multiset{pending[n]};
            var mine := KeyOf(pending[n].packet) == key;
            && multiset(pending) == multiset(pending[..n]) + one
            && multiset(Retained(pending, key))
               == multiset(Retained(pending[..n], key)) + (if mine then multiset{} else one)
            && multiset(Cancelled(pending, key))
               == multiset(Cancelled(pending[..n], key)) + (if mine then one else multiset{})
            && |Retained(pending, key)| == |Retained(pending[..n], key)| + (if mine then 0 else 1)
            && |Cancelled(pending, key)| == |Cancelled(pending[..n], key)| + (if mine then 1 else 0)
  {
    hide KeyOf;
    var n := |pending| - 1;
    assert pending == pending[..n] + [pending[n]];
  }

  lemma {:induction false} CancelKeys(pending: seq<Pending>, key: DupeKey)
    ensures forall e :: e in Retained(pending, key) ==> KeyOf(e.packet) != key
    ensures forall e :: e in Cancelled(pending, key) ==> KeyOf(e.packet) == key
  {
    hide KeyOf;
    if pending != [] {
      CancelKeys(pending[..|pending| - 1], key);
    }
  }

  // ----- Whole runs -----

  datatype Event =
    | Add(packet: Packet, digipeated: string, delay: nat, now: nat)
    | Heard(heard: Packet)
    | Drain(now: nat)

  /** An entry handed to the transmitter, and when. */
  datatype Sent = Sent(entry: Pending, time: nat)

  /** The queue, and all that was ever added, cancelled and transmitted. */
  datatype History = History(pending: seq<Pending>, added: seq<Pending>, cancelled: seq<Pending>, sent: seq<Sent>)

  function SentAt(expired: seq<Pending>, now: nat): (sent: seq<Sent>)
    ensures |sent| == |expired|
  {
    seq(|expired|, i requires 0 <= i < |expired| => Sent(expired[i], now))
  }

  function Step(h: History, e: Event): History {
    match e
    case Add(packet, digipeated, delay, now) =>
      var entry := Pending(packet, digipeated, now, delay);
      h.(pending := h.pending + [entry], added := h.added + [entry])
    case Heard(heard) =>
      h.(pending := Retained(h.pending, KeyOf(heard)),
         cancelled := h.cancelled + Cancelled(h.pending, KeyOf(heard)))
    case Drain(now) =>
      var r := DrainFrom(h.pending, 0, now);
      h.(pending := r.kept, sent := h.sent + SentAt(r.expired, now))
  }

  function Run(h: History, events: seq<Event>): History {
    if events == [] then h else Step(Run(h, events[..|events| - 1]), events[|events| - 1])
  }

  lemma {:induction false} RunConcat(h: History, a: seq<Event>, b: seq<Event>)
    ensures Run(h, a + b) == Run(Run(h, a), b)
    decreases |b|
  {
    hide Step;
    if b == [] {
      assert a + b == a;
    } else {
      var n := |b| - 1;
      RunConcat(h, a, b[..n]);
      assert (a + b)[..|a + b| - 1] == a + b[..n];
    }
  }

  lemma HeardSendsNothing(h: History, heard: Packet)
    ensures var h1 := Step(h, Heard(heard));
            h1.sent == h.sent && h1.added == h.added
  {
  }

  const START := History([], [], [], [])

  function Entries(sent: seq<Sent>): (entries: seq<Pending>)
    ensures |entries| == |sent|
  {
    seq(|sent|, i requires 0 <= i < |sent| => sent[i].entry)
  }

  lemma RunSnoc(h: History, events: seq<Event>, e: Event)
    ensures Run(h, events + [e]) == Step(Run(h, events), e)
  {
    hide Step;
    assert (events + [e])[..|events|] == events;
  }

  // ----- The queue object -----

  class ViscousQueue {
    var pending: seq<Pending>

    /** Everything that was done with the queue. */
    ghost var events: seq<Event>

    /** What has become of everything added so far. */
    ghost function Past(): History
      reads this
    {
      Run(START, events)
    }

    ghost predicate Valid()
      reads this
    {
      pending == Past().pending
    }

    constructor ()
      ensures Valid() && pending == [] && events == []
    {
      pending := [];
      events := [];
    }

    method Add(packet: Packet, digipeated: string, delay: nat, now: nat)
      requires Valid()
      modifies this
      ensures Valid() && events == old(events) + [Event.Add(packet, digipeated, delay, now)]
      ensures pending == old(pending) + [Pending(packet, digipeated, now, delay)]
      ensures Past() == old(Past()).(pending := pending,
                                     added := old(Past().added) + [Pending(packet, digipeated, now, delay)])
    {
      RunSnoc(START, events, Event.Add(packet, digipeated, delay, now));
      pending := pending + [Pending(packet, digipeated, now, delay)];
      events := events + [Event.Add(packet, digipeated, delay, now)];
    }

    /** Drops every entry with the key of the heard packet and says how many there were. */
    method CancelIfHeard(packet: Packet) returns (count: nat)
      requires Valid()
      modifies this
      ensures Valid() && events == old(events) + [Heard(packet)]
      ensures pending == Retained(old(pending), KeyOf(packet))
      ensures count == |Cancelled(old(pending), KeyOf(packet))|
      ensures Past() == old(Past()).(pending := pending,
                                     cancelled := old(Past().cancelled) + Cancelled(old(pending), KeyOf(packet)))
    {
      hide KeyOf;
      var heardKey := KeyOf(packet);
      var before := |pending|;
      CancelParts(pending, heardKey);
      RunSnoc(START, events, Heard(packet));
      pending := Retained(pending, heardKey);
      count := before - |pending|;
      events := events + [Heard(packet)];
    }

    /** Takes out the due entries; the last entry moves into each gap. */
    method DrainExpired(now: nat) returns (expired: seq<(Packet, string)>)
      requires Valid()
      modifies this
      ensures Valid() && events == old(events) + [Drain(now)]
      ensures pending == DrainFrom(old(pending), 0, now).kept
      ensures expired == Outputs(DrainFrom(old(pending), 0, now).expired)
      ensures Past() == old(Past()).(pending := pending, sent := Past().sent)
      ensures |Past().sent| == |old(Past().sent)| + |expired| && old(Past().sent) <= Past().sent
      ensures forall i :: 0 <= i < |expired| ==>
                var s := Past().sent[|old(Past().sent)| + i];
                s.time == now && expired[i] == (s.entry.packet, s.entry.digipeated)
    {
      expired := DrainLoop(now);
      RunSnoc(START, events, Drain(now));
      events := events + [Drain(now)];
    }

    method DrainLoop(now: nat) returns (expired: seq<(Packet, string)>)
      modifies this`pending
      ensures pending == DrainFrom(old(pending), 0, now).kept
      ensures expired == Outputs(DrainFrom(old(pending), 0, now).expired)
    {
      expired := [];
      ghost var taken: seq<Pending> := [];
      var i := 0;
      while i < |pending|
        invariant expired == Outputs(taken)
        invariant var rest := DrainFrom(pending, i, now);
                  DrainFrom(old(pending), 0, now) == Drained(rest.kept, taken + rest.expired)
        decreases |pending| - i
      {
        if Due(pending[i], now) {
          var entry := pending[i];
          pending := SwapRemove(pending, i);
          expired := expired + [(entry.packet, entry.digipeated)];
          assert taken + ([entry] + DrainFrom(pending, i, now).expired)
              == (taken + [entry]) + DrainFrom(pending, i, now).expired;
          taken := taken + [entry];
        } else {
          i := i + 1;
        }
      }
      assert taken + [] == taken;
    }
  }

  // ----- What every run keeps -----

  /** Every added entry is exactly one of pending, cancelled and transmitted. */
  predicate Conserved(h: History) {
    multiset(h.added) == multiset(h.pending) + multiset(h.cancelled) + multiset(Entries(h.sent))
  }

  predicate OnTime(h: History) {
    forall i :: 0 <= i < |h.sent| ==> Due(h.sent[i].entry, h.sent[i].time)
  }

  lemma EntriesOfSent(sent: seq<Sent>, expired: seq<Pending>, now: nat)
    ensures Entries(sent + SentAt(expired, now)) == Entries(sent) + expired
  {
  }

  lemma StepConserves(h: History, e: Event)
    requires Conserved(h)
    ensures Conserved(Step(h, e))
  {
    hide KeyOf, Due;
    match e
    case Add(_, _, _, _) =>
    case Heard(heard) => CancelParts(h.pending, KeyOf(heard));
    case Drain(now) =>
      DrainParts(h.pending, 0, now);
      EntriesOfSent(h.sent, DrainFrom(h.pending, 0, now).expired, now);
  }

  lemma StepOnTime(h: History, e: Event)
    requires OnTime(h)
    ensures OnTime(Step(h, e))
  {
    hide KeyOf, Due;
    if e.Drain? {
      DrainParts(h.pending, 0, e.now);
      var expired := DrainFrom(h.pending, 0, e.now).expired;
      forall i | 0 <= i < |expired| ensures Due(expired[i], e.now) {
        assert expired[i] in expired;
      }
    }
  }

  /** Over every run: nothing added is lost, duplicated or invented, and nothing is transmitted
      before its delay has passed. */
  lemma {:induction false} RunIsSafe(events: seq<Event>)
    ensures Conserved(Run(START, events)) && OnTime(Run(START, events))
  {
    hide Step, Conserved, OnTime;
    if events == [] {
      assert Conserved(START) && OnTime(START) by { StartIsSafe(); }
    } else {
      var n := |events| - 1;
      RunIsSafe(events[..n]);
      StepConserves(Run(START, events[..n]), events[n]);
      StepOnTime(Run(START, events[..n]), events[n]);
    }
  }

  lemma StartIsSafe()
    ensures Conserved(START) && OnTime(START)
  {
  }

  /** After a drain nothing overdue is pending. */
  lemma DrainLeavesNothingDue(h: History, now: nat, e: Pending)
    requires e in Step(h, Drain(now)).pending
    ensures !Due(e, now)
  {
    DrainParts(h.pending, 0, now);
  }

  /** In times: over every run nothing is transmitted before its delay has passed since it was added. */
  lemma NothingIsEarly(events: seq<Event>, i: nat)
    requires i < |Run(START, events).sent|
    ensures var s := Run(START, events).sent[i];
            s.entry.delay == 0 || s.time >= s.entry.addedAt + s.entry.delay
  {
    hide Run, Conserved;
    RunIsSafe(events);
    assert Due(Run(START, events).sent[i].entry, Run(START, events).sent[i].time);
  }

  /** And after a drain nothing is pending whose delay has passed. */
  lemma NothingIsOverdue(events: seq<Event>, now: nat, e: Pending)
    requires e in Run(START, events + [Drain(now)]).pending
    ensures now < e.addedAt + e.delay
  {
    hide DrainFrom, Due;
    assert (events + [Drain(now)])[..|events|] == events;
    DrainLeavesNothingDue(Run(START, events), now, e);
    NotDueIs(e, now);
  }

  lemma NotDueIs(e: Pending, now: nat)
    ensures !Due(e, now) ==> now < e.addedAt + e.delay
  {
  }

  function CountOf(entries: seq<Pending>, e: Pending): nat {
    multiset(entries)[e]
  }

  /** Between two states of a run, what was sent and cancelled came out of the queue or was added. */
  predicate Flow(before: History, after: History, e: Pending) {
    CountOf(before.pending, e) + CountOf(after.added, e) - CountOf(before.added, e)
    == CountOf(after.pending, e) + (CountOf(after.cancelled, e) - CountOf(before.cancelled, e))
       + (CountOf(Entries(after.sent), e) - CountOf(Entries(before.sent), e))
  }

  lemma {:induction false} FlowOverRun(h: History, events: seq<Event>, e: Pending)
    ensures Flow(h, Run(h, events), e)
    ensures CountOf(Run(h, events).cancelled, e) >= CountOf(h.cancelled, e)
  {
    hide Step;
    if events != [] {
      var n := |events| - 1;
      FlowOverRun(h, events[..n], e);
      FlowOverStep(Run(h, events[..n]), events[n], e);
    }
  }

  lemma FlowOverStep(h: History, event: Event, e: Pending)
    ensures Flow(h, Step(h, event), e)
    ensures CountOf(Step(h, event).cancelled, e) >= CountOf(h.cancelled, e)
  {
    hide KeyOf, Due;
    match event
    case Add(_, _, _, _) =>
    case Heard(heard) => CancelParts(h.pending, KeyOf(heard));
    case Drain(now) =>
      DrainParts(h.pending, 0, now);
      EntriesOfSent(h.sent, DrainFrom(h.pending, 0, now).expired, now);
  }

  /** Hearing a packet cancels every pending copy for good: in any continuation of the run, an entry
      with its key is transmitted at most as often as it is added again after the hearing. */
  lemma HeardIsNotTransmitted(h: History, heard: Packet, later: seq<Event>, e: Pending)
    requires KeyOf(e.packet) == KeyOf(heard)
    ensures var h1 := Step(h, Heard(heard));
            var h2 := Run(h1, later);
            CountOf(Entries(h2.sent), e) - CountOf(Entries(h1.sent), e) <= CountOf(h2.added, e) - CountOf(h1.added, e)
  {
    hide KeyOf;
    CancelKeys(h.pending, KeyOf(heard));
    FlowOverRun(Step(h, Heard(heard)), later, e);
  }
}
