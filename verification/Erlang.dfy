/** Per-interface rolling statistics (src/erlang.rs) against the full list of recorded events. */
module Erlang {

  datatype WindowStats = WindowStats(rxPackets: nat, txPackets: nat, rxBytes: nat, txBytes: nat, drops: nat)

  const ZERO := WindowStats(0, 0, 0, 0, 0)

  function Add(a: WindowStats, b: WindowStats): WindowStats {
    WindowStats(a.rxPackets + b.rxPackets, a.txPackets + b.txPackets, a.rxBytes + b.rxBytes,
                a.txBytes + b.txBytes, a.drops + b.drops)
  }

  /** The fold of a list of samples. */
  function Sum(samples: seq<WindowStats>): WindowStats {
    if samples == [] then ZERO else Add(Sum(samples[..|samples| - 1]), samples[|samples| - 1])
  }

  const MAX_SAMPLES: nat := 60
  const TEN: nat := 10

  /** The last n of a list, or all of it. */
  function LastOf<T>(s: seq<T>, n: nat): (t: seq<T>)
    ensures |t| == if |s| <= n then |s| else n
  {
    if |s| <= n then s else s[|s| - n..]
  }

  // ----- The recorded events, minute by minute -----

  datatype Event = Rx(bytes: nat) | Tx(bytes: nat) | Dropped | Rotate

  /** The events since the last rotation. */
  function Current(events: seq<Event>): seq<Event> {
    if events == [] || events[|events| - 1] == Rotate then []
    else Current(events[..|events| - 1]) + [events[|events| - 1]]
  }

  /** The events of each completed minute. */
  function Completed(events: seq<Event>): seq<seq<Event>> {
    if events == [] then []
    else
      var before := events[..|events| - 1];
      Completed(before) + if events[|events| - 1] == Rotate then [Current(before)] else []
  }

  /** What one event adds to the statistics. */
  function Contribution(e: Event): WindowStats {
    match e
    case Rx(bytes) => WindowStats(1, 0, bytes, 0, 0)
    case Tx(bytes) => WindowStats(0, 1, 0, bytes, 0)
    case Dropped => WindowStats(0, 0, 0, 0, 1)
    case Rotate => ZERO
  }

  /** What a minute's statistics should say: the sum over its events. */
  function Totals(minute: seq<Event>): WindowStats {
    if minute == [] then ZERO else Add(Totals(minute[..|minute| - 1]), Contribution(minute[|minute| - 1]))
  }

  /** The sizes of the packets received, and sent, in a minute, and the drops. */
  function Received(minute: seq<Event>): seq<nat> {
    if minute == [] then []
    else if minute[0].Rx? then [minute[0].bytes] + Received(minute[1..]) else Received(minute[1..])
  }

  function Transmitted(minute: seq<Event>): seq<nat> {
    if minute == [] then []
    else if minute[0].Tx? then [minute[0].bytes] + Transmitted(minute[1..]) else Transmitted(minute[1..])
  }

  function Drops(minute: seq<Event>): nat {
    if minute == [] then 0 else Drops(minute[1..]) + if minute[0] == Dropped then 1 else 0
  }

  function SumOf(sizes: seq<nat>): nat {
    if sizes == [] then 0 else sizes[0] + SumOf(sizes[1..])
  }

  function Tally(minute: seq<Event>): WindowStats {
    WindowStats(|Received(minute)|, |Transmitted(minute)|, SumOf(Received(minute)), SumOf(Transmitted(minute)),
                Drops(minute))
  }

  /** A minute's statistics are the numbers of packets received and sent, their bytes, and the drops. */
  lemma {:induction false} TotalsAreTheTally(minute: seq<Event>)
    ensures Totals(minute) == Tally(minute)
    decreases |minute|
  {
    hide Tally;
    if minute == [] {
      assert Tally(minute) == ZERO by { EmptyTally(); }
    } else {
      var n := |minute| - 1;
      TotalsAreTheTally(minute[..n]);
      assert minute == minute[..n] + [minute[n]];
      TallySnoc(minute[..n], minute[n]);
    }
  }

  lemma EmptyTally()
    ensures Tally([]) == ZERO
  {
  }

  lemma TallySnoc(minute: seq<Event>, e: Event)
    ensures Tally(minute + [e]) == Add(Tally(minute), Contribution(e))
  {
    hide Received, Transmitted, Drops, SumOf;
    SizesSnoc(minute, e);
    DropsSnoc(minute, e);
    assert Received(minute) + [] == Received(minute) && Transmitted(minute) + [] == Transmitted(minute);
    if e.Rx? {
      SumOfSnoc(Received(minute), e.bytes);
    } else if e.Tx? {
      SumOfSnoc(Transmitted(minute), e.bytes);
    }
  }

  lemma {:induction false} SizesSnoc(minute: seq<Event>, e: Event)
    ensures Received(minute + [e]) == Received(minute) + if e.Rx? then [e.bytes] else []
    ensures Transmitted(minute + [e]) == Transmitted(minute) + if e.Tx? then [e.bytes] else []
  {
    if minute == [] {
      assert [] + [e] == [e] && [e][1..] == [];
    } else {
      assert (minute + [e])[1..] == minute[1..] + [e];
      SizesSnoc(minute[1..], e);
    }
  }

  lemma {:induction false} DropsSnoc(minute: seq<Event>, e: Event)
    ensures Drops(minute + [e]) == Drops(minute) + if e == Dropped then 1 else 0
  {
    if minute == [] {
      assert [] + [e] == [e] && [e][1..] == [];
    } else {
      assert (minute + [e])[1..] == minute[1..] + [e];
      DropsSnoc(minute[1..], e);
    }
  }

  lemma {:induction false} SumOfSnoc(sizes: seq<nat>, size: nat)
    ensures SumOf(sizes + [size]) == SumOf(sizes) + size
  {
    if sizes == [] {
      assert [] + [size] == [size] && [size][1..] == [];
    } else {
      assert (sizes + [size])[1..] == sizes[1..] + [size];
      SumOfSnoc(sizes[1..], size);
    }
  }

  function AllTotals(minutes: seq<seq<Event>>): (totals: seq<WindowStats>)
    ensures |totals| == |minutes|
  {
    seq(|minutes|, i requires 0 <= i < |minutes| => Totals(minutes[i]))
  }

  // ----- The statistics object -----

  class ChannelStats {
    var current: WindowStats
    var last1min: WindowStats
    var last10min: WindowStats
    var last60min: WindowStats
    var minuteSamples: seq<WindowStats>

    /** Everything that was ever recorded. */
    ghost var events: seq<Event>

    ghost predicate Valid()
      reads this
    {
      var minutes := AllTotals(Completed(events));
      && current == Totals(Current(events))
      && minuteSamples == LastOf(minutes, 60)
      && last1min == Sum(LastOf(minutes, 1))
      && last10min == Sum(LastOf(minutes, 10))
      && last60min == Sum(LastOf(minutes, 60))
    }

    constructor ()
      ensures Valid() && events == []
    {
      current, last1min, last10min, last60min := ZERO, ZERO, ZERO, ZERO;
      minuteSamples := [];
      events := [];
    }

    method RecordRx(bytes: nat)
      requires Valid()
      modifies this
      ensures Valid() && events == old(events) + [Rx(bytes)]
    {
      hide Totals, Sum, Completed, Current, LastOf;
      RecordSnoc(events, Rx(bytes));
      current := current.(rxPackets := current.rxPackets + 1);
      current := current.(rxBytes := current.rxBytes + bytes);
      events := events + [Rx(bytes)];
    }

    method RecordTx(bytes: nat)
      requires Valid()
      modifies this
      ensures Valid() && events == old(events) + [Tx(bytes)]
    {
      hide Totals, Sum, Completed, Current, LastOf;
      RecordSnoc(events, Tx(bytes));
      current := current.(txPackets := current.txPackets + 1);
      current := current.(txBytes := current.txBytes + bytes);
      events := events + [Tx(bytes)];
    }

    method RecordDrop()
      requires Valid()
      modifies this
      ensures Valid() && events == old(events) + [Dropped]
    {
      hide Totals, Sum, Completed, Current, LastOf;
      RecordSnoc(events, Dropped);
      current := current.(drops := current.drops + 1);
      events := events + [Dropped];
    }

    /** After a rotation the windows are the sums of the last 1, 10 and 60 of all completed minutes. */
    method RotateWindow()
      requires Valid()
      modifies this
      ensures Valid() && events == old(events) + [Rotate]
    {
      hide Totals, Sum, Completed, Current, LastOf, AllTotals;
      RotateSnoc(events);
      RotatedRing(AllTotals(Completed(events)), current);
      last1min := current;
      minuteSamples := minuteSamples + [current];
      if |minuteSamples| > MAX_SAMPLES {
        minuteSamples := minuteSamples[1..];
      }
      var tenStart := if |minuteSamples| >= TEN then |minuteSamples| - TEN else 0;
      last10min := Sum(minuteSamples[tenStart..]);
      last60min := Sum(minuteSamples);
      current := ZERO;
      events := events + [Rotate];
    }
  }

  /** Pushing onto the ring of the last 60 and dropping the oldest beyond that keeps the last 60,
      and the last 10 of the ring are the last 10 of all. */
  lemma RotatedRing(minutes: seq<WindowStats>, x: WindowStats)
    ensures var pushed := LastOf(minutes, MAX_SAMPLES) + [x];
            var ring := if |pushed| > MAX_SAMPLES then pushed[1..] else pushed;
            && LastOf(minutes + [x], MAX_SAMPLES) == ring
            && LastOf(minutes + [x], TEN) == ring[if |ring| >= TEN then |ring| - TEN else 0..]
            && Sum(LastOf(minutes + [x], 1)) == x
  {
    hide Sum;
    SumOne(x);
    assert LastOf(minutes + [x], 1) == [x];
  }

  lemma TotalsSnoc(minute: seq<Event>, e: Event)
    ensures Totals(minute + [e]) == Add(Totals(minute), Contribution(e))
  {
    hide Add, Contribution;
    assert (minute + [e])[..|minute|] == minute;
  }

  lemma RecordSnoc(events: seq<Event>, e: Event)
    requires e != Rotate
    ensures Completed(events + [e]) == Completed(events) && Current(events + [e]) == Current(events) + [e]
    ensures Totals(Current(events + [e])) == Add(Totals(Current(events)), Contribution(e))
  {
    hide Add, Contribution, Totals;
    assert (events + [e])[..|events|] == events;
    assert Completed(events) + [] == Completed(events);
    TotalsSnoc(Current(events), e);
  }

  lemma RotateSnoc(events: seq<Event>)
    ensures Current(events + [Rotate]) == [] && Totals([]) == ZERO
    ensures AllTotals(Completed(events + [Rotate])) == AllTotals(Completed(events)) + [Totals(Current(events))]
  {
    hide Add, Totals;
    var minutes := Completed(events);
    assert (events + [Rotate])[..|events|] == events;
    assert Completed(events + [Rotate]) == minutes + [Current(events)];
    NoEvents();
    hide Completed, Current;
    TotalsOfPush(minutes, Current(events));
  }

  lemma NoEvents()
    ensures Totals([]) == ZERO
  {
  }

  lemma TotalsOfPush(minutes: seq<seq<Event>>, minute: seq<Event>)
    ensures AllTotals(minutes + [minute]) == AllTotals(minutes) + [Totals(minute)]
  {
    hide Totals;
  }

  lemma LastOfLast<T>(s: seq<T>, m: nat, n: nat)
    requires m <= n
    ensures LastOf(LastOf(s, n), m) == LastOf(s, m)
  {
  }

  lemma SumOne(x: WindowStats)
    ensures Sum([x]) == x
  {
    assert [x][..0] == [];
    AddLaws(x, ZERO, ZERO);
  }

  // ----- What the windows promise -----

  predicate AtMost(a: WindowStats, b: WindowStats) {
    && a.rxPackets <= b.rxPackets && a.txPackets <= b.txPackets && a.rxBytes <= b.rxBytes
    && a.txBytes <= b.txBytes && a.drops <= b.drops
  }

  lemma AddLaws(a: WindowStats, b: WindowStats, c: WindowStats)
    ensures Add(Add(a, b), c) == Add(a, Add(b, c)) && Add(a, b) == Add(b, a) && Add(a, ZERO) == a
    ensures AtMost(a, Add(b, a))
  {
  }

  lemma {:induction false} SumConcat(a: seq<WindowStats>, b: seq<WindowStats>)
    ensures Sum(a + b) == Add(Sum(a), Sum(b))
    decreases |b|
  {
    hide Add;
    if b == [] {
      assert a + b == a;
      AddLaws(Sum(a), ZERO, ZERO);
    } else {
      var n := |b| - 1;
      SumConcat(a, b[..n]);
      assert (a + b)[..|a + b| - 1] == a + b[..n];
      AddLaws(Sum(a), Sum(b[..n]), b[n]);
    }
  }

  /** A longer window never shows less than a shorter one, in any field. */
  lemma WindowsNest(events: seq<Event>, m: nat, n: nat)
    requires m <= n
    ensures var minutes := AllTotals(Completed(events));
            AtMost(Sum(LastOf(minutes, m)), Sum(LastOf(minutes, n)))
  {
    hide Add, AtMost, Completed;
    var minutes := AllTotals(Completed(events));
    var long, short := LastOf(minutes, n), LastOf(minutes, m);
    LastOfLast(minutes, m, n);
    assert long == long[..|long| - |short|] + short;
    SumConcat(long[..|long| - |short|], short);
    AddLaws(Sum(short), Sum(long[..|long| - |short|]), ZERO);
  }

  /** Nothing recorded is lost: the current minute and all completed minutes add up to the totals
      of the whole event list. */
  lemma {:induction false} EverythingIsCounted(events: seq<Event>)
    ensures Add(Totals(Current(events)), Sum(AllTotals(Completed(events)))) == Totals(events)
  {
    hide *;
    if events == [] {
      NothingCounted(events);
    } else {
      var n := |events| - 1;
      var before, e := events[..n], events[n];
      EverythingIsCounted(before);
      assert events == before + [e];
      CountedStep(before, e);
    }
  }

  lemma NothingCounted(events: seq<Event>)
    requires events == []
    ensures Add(Totals(Current(events)), Sum(AllTotals(Completed(events)))) == Totals(events)
  {
    assert Current(events) == [] && Completed(events) == [];
    hide Current, Completed;
    assert Totals(events) == ZERO;
    NoSamples(AllTotals(Completed(events)));
  }

  lemma NoSamples(samples: seq<WindowStats>)
    requires samples == []
    ensures Sum(samples) == ZERO
  {
  }

  lemma CountedStep(before: seq<Event>, e: Event)
    requires Add(Totals(Current(before)), Sum(AllTotals(Completed(before)))) == Totals(before)
    ensures Add(Totals(Current(before + [e])), Sum(AllTotals(Completed(before + [e])))) == Totals(before + [e])
  {
    hide Add, Totals, Sum, Completed, Current;
    var now, minutes := Totals(Current(before)), AllTotals(Completed(before));
    TotalsSnoc(before, e);
    if e == Rotate {
      RotateSnoc(before);
      SumConcat(minutes, [now]);
      SumOne(now);
      AddLaws(Sum(minutes), now, ZERO);
      AddLaws(ZERO, Add(Sum(minutes), now), ZERO);
      AddLaws(Totals(before), ZERO, ZERO);
    } else {
      RecordSnoc(before, e);
      AddLaws(now, Contribution(e), Sum(minutes));
      AddLaws(Contribution(e), Sum(minutes), ZERO);
      AddLaws(now, Sum(minutes), Contribution(e));
    }
  }
}
