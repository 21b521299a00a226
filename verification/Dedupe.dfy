/** The duplicate checker (src/digipeater/dedupe.rs) against an unbounded log of everything it
    was ever asked. */
module Dedupe {
  import opened Text
  import opened Packets

  datatype DupeResult = New | Duplicate(seenCount: nat)

  datatype DupeEntry = DupeEntry(seenCount: nat, expiresAt: nat)

  type Table = map<DupeKey, DupeEntry>

  // ----- The reference: a log that forgets nothing -----

  datatype Observation = Observation(key: DupeKey, time: nat, result: DupeResult)

  /** The last New for a key: its time, and the observations of the key from then on. */
  function SinceNew(log: seq<Observation>, key: DupeKey): Option<(nat, nat)> {
    if log == [] then None
    else
      var before, last := SinceNew(log[..|log| - 1], key), log[|log| - 1];
      if last.key != key then before
      else if last.result == New then Some((last.time, 1))
      else match before case None => None case Some((t, c)) => Some((t, c + 1))
  }

  /** The answer the whole log calls for. */
  function Judge(log: seq<Observation>, key: DupeKey, now: nat, storetime: nat): DupeResult {
    match SinceNew(log, key)
    case None => New
    case Some((t, c)) => if t + storetime > now then Duplicate(c + 1) else New
  }

  /** A log in which each answer is the one its past calls for, on a clock that never runs back. */
  predicate Judged(log: seq<Observation>, storetime: nat) {
    && (forall j :: 0 <= j < |log| ==> log[j].result == Judge(log[..j], log[j].key, log[j].time, storetime))
    && forall i, j :: 0 <= i < j < |log| ==> log[i].time <= log[j].time
  }

  /** Nothing was observed after the given time. */
  predicate Until(log: seq<Observation>, clock: nat) {
    forall i :: 0 <= i < |log| ==> log[i].time <= clock
  }

  /** The table tells of each key what the log does, or the key's entry has run out. */
  ghost predicate Agrees(entries: Table, log: seq<Observation>, clock: nat, storetime: nat) {
    forall key :: AgreesOn(entries, log, clock, storetime, key)
  }

  predicate AgreesOn(entries: Table, log: seq<Observation>, clock: nat, storetime: nat, key: DupeKey) {
    match SinceNew(log, key)
    case None => key !in entries
    case Some((t, c)) =>
      if key in entries then entries[key] == DupeEntry(c, t + storetime) else t + storetime <= clock
  }

  // ----- The checker -----

  function Checked(entries: Table, key: DupeKey, now: nat, storetime: nat): (Table, DupeResult) {
    if key in entries && entries[key].expiresAt > now then
      var seen := entries[key].seenCount + 1;
      (entries[key := entries[key].(seenCount := seen)], Duplicate(seen))
    else (entries[key := DupeEntry(1, now + storetime)], New)
  }

  function Cleaned(entries: Table, now: nat): Table {
    map k | k in entries && entries[k].expiresAt > now :: entries[k]
  }

  class DupeChecker {
    const storetime: nat
    var entries: Table

    /** Every check so far, and the latest time the clock showed. */
    ghost var log: seq<Observation>
    ghost var clock: nat

    ghost predicate Valid()
      reads this
    {
      && Agrees(entries, log, clock, storetime)
      && Judged(log, storetime) && Until(log, clock)
    }

    constructor (storetime: nat)
      ensures Valid() && this.storetime == storetime && log == [] && clock == 0
    {
      this.storetime := storetime;
      entries := map[];
      log := [];
      clock := 0;
    }

    /** The answer is the one the whole log calls for, however often cleanup ran. */
    method Check(packet: Packet, now: nat) returns (result: DupeResult)
      requires Valid() && now >= clock
      modifies this
      ensures Valid() && clock == now
      ensures result == Judge(old(log), KeyOf(packet), now, storetime)
      ensures log == old(log) + [Observation(KeyOf(packet), now, result)]
    {
      hide KeyOf;
      var key := KeyOf(packet);
      CheckAgrees(entries, log, clock, storetime, key, now);
      JudgedSnoc(log, storetime, clock, key, now);
      if key in entries {
        var entry := entries[key];
        if entry.expiresAt > now {
          var seenCount := entry.seenCount + 1;
          entries := entries[key := entry.(seenCount := seenCount)];
          result := Duplicate(seenCount);
        } else {
          entries := entries[key := DupeEntry(1, now + storetime)];
          result := New;
        }
      } else {
        entries := entries[key := DupeEntry(1, now + storetime)];
        result := New;
      }
      log, clock := log + [Observation(key, now, result)], now;
    }

    method Cleanup(now: nat)
      requires Valid() && now >= clock
      modifies this
      ensures Valid() && log == old(log) && clock == now
      ensures forall key :: key in entries ==> entries[key].expiresAt > now
    {
      CleanupAgrees(entries, log, clock, storetime, now);
      entries := map k | k in entries && entries[k].expiresAt > now :: entries[k];
      clock := now;
    }
  }

  lemma JudgedSnoc(log: seq<Observation>, storetime: nat, clock: nat, key: DupeKey, now: nat)
    requires Judged(log, storetime) && Until(log, clock) && clock <= now
    ensures var next := log + [Observation(key, now, Judge(log, key, now, storetime))];
            Judged(next, storetime) && Until(next, now)
  {
    hide Judge;
    var next := log + [Observation(key, now, Judge(log, key, now, storetime))];
    assert next[..|log|] == log;
    assert forall j :: 0 <= j < |log| ==> next[j] == log[j] && next[..j] == log[..j];
  }

  lemma CheckAgrees(entries: Table, log: seq<Observation>, clock: nat, storetime: nat, key: DupeKey, now: nat)
    requires Agrees(entries, log, clock, storetime) && now >= clock
    ensures var (next, result) := Checked(entries, key, now, storetime);
            && result == Judge(log, key, now, storetime)
            && Agrees(next, log + [Observation(key, now, result)], now, storetime)
  {
    var (next, result) := Checked(entries, key, now, storetime);
    assert AgreesOn(entries, log, clock, storetime, key);
    var log' := log + [Observation(key, now, result)];
    assert log'[..|log|] == log;
    forall k ensures AgreesOn(next, log', now, storetime, k) {
      assert AgreesOn(entries, log, clock, storetime, k);
    }
  }

  lemma CleanupAgrees(entries: Table, log: seq<Observation>, clock: nat, storetime: nat, now: nat)
    requires Agrees(entries, log, clock, storetime) && now >= clock
    ensures Agrees(Cleaned(entries, now), log, now, storetime)
  {
    forall k ensures AgreesOn(Cleaned(entries, now), log, now, storetime, k) {
      assert AgreesOn(entries, log, clock, storetime, k);
    }
  }

  // ----- Whole runs -----

  datatype Event = Check(key: DupeKey, now: nat) | Cleanup(now: nat)

  predicate Monotone(events: seq<Event>) {
    forall i, j :: 0 <= i < j < |events| ==> events[i].now <= events[j].now
  }

  datatype State = State(entries: Table, log: seq<Observation>)

  function Run(events: seq<Event>, storetime: nat): State {
    if events == [] then State(map[], [])
    else
      var s := Run(events[..|events| - 1], storetime);
      match events[|events| - 1]
      case Check(key, now) =>
        var (next, result) := Checked(s.entries, key, now, storetime);
        State(next, s.log + [Observation(key, now, result)])
      case Cleanup(now) => State(Cleaned(s.entries, now), s.log)
  }

  /** The same checks without any table: each answered from the log. */
  function Ideal(events: seq<Event>, storetime: nat): seq<Observation> {
    if events == [] then []
    else
      var log := Ideal(events[..|events| - 1], storetime);
      match events[|events| - 1]
      case Check(key, now) => log + [Observation(key, now, Judge(log, key, now, storetime))]
      case Cleanup(_) => log
  }

  /** Wherever cleanups fall, the checker answers every check as the unbounded log would. */
  lemma {:induction false} CheckerRefinesLog(events: seq<Event>, storetime: nat)
    requires Monotone(events)
    ensures Run(events, storetime).log == Ideal(events, storetime)
    ensures var clock := if events == [] then 0 else events[|events| - 1].now;
            Agrees(Run(events, storetime).entries, Run(events, storetime).log, clock, storetime)
  {
    hide Agrees, Checked, Cleaned, Judge;
    if events == [] {
      EmptyAgrees(storetime);
    } else {
      var n := |events| - 1;
      CheckerRefinesLog(events[..n], storetime);
      var s := Run(events[..n], storetime);
      var clock := if n == 0 then 0 else events[n - 1].now;
      match events[n]
      case Check(key, now) => CheckAgrees(s.entries, s.log, clock, storetime, key, now);
      case Cleanup(now) => CleanupAgrees(s.entries, s.log, clock, storetime, now);
    }
  }

  lemma EmptyAgrees(storetime: nat)
    ensures Agrees(map[], [], 0, storetime)
  {
  }

  // ----- What the log promises -----

  lemma {:induction false} IdealIsJudged(events: seq<Event>, storetime: nat)
    requires Monotone(events)
    ensures Judged(Ideal(events, storetime), storetime)
    ensures Until(Ideal(events, storetime), if events == [] then 0 else events[|events| - 1].now)
  {
    hide Judge, Judged;
    if events == [] {
      EmptyJudged(storetime);
    } else {
      var n := |events| - 1;
      IdealIsJudged(events[..n], storetime);
      if events[n].Check? {
        JudgedSnoc(Ideal(events[..n], storetime), storetime, if n == 0 then 0 else events[n - 1].now, events[n].key,
                   events[n].now);
      }
    }
  }

  lemma EmptyJudged(storetime: nat)
    ensures Judged([], storetime)
  {
  }

  /** SinceNew points at the last New of the key. */
  lemma {:induction false} LastNew(log: seq<Observation>, key: DupeKey) returns (i: nat)
    requires SinceNew(log, key).Some?
    ensures i < |log| && log[i].key == key && log[i].result == New && log[i].time == SinceNew(log, key).value.0
    ensures forall k :: i < k < |log| && log[k].key == key ==> log[k].result != New
  {
    var n := |log| - 1;
    if log[n].key == key && log[n].result == New {
      i := n;
    } else {
      i := LastNew(log[..n], key);
    }
  }

  lemma {:induction false} NoNew(log: seq<Observation>, key: DupeKey)
    requires SinceNew(log, key).None?
    ensures forall k :: 0 <= k < |log| && log[k].key == key ==> log[k].result != New
  {
    if log != [] {
      NoNew(log[..|log| - 1], key);
    }
  }

  predicate NewWithin(log: seq<Observation>, key: DupeKey, now: nat, storetime: nat, i: nat) {
    i < |log| && log[i].key == key && log[i].result == New && now < log[i].time + storetime
  }

  /** A check answers New exactly when no New for its key lies within the store time. */
  lemma NewIff(log: seq<Observation>, storetime: nat, j: nat)
    requires Judged(log, storetime) && j < |log|
    ensures log[j].result == New <==> !(exists i: nat :: NewWithin(log[..j], log[j].key, log[j].time, storetime, i))
  {
    var past, key, now := log[..j], log[j].key, log[j].time;
    if SinceNew(past, key).Some? {
      var i := LastNew(past, key);
      assert SinceNew(past, key).value.0 + storetime > now ==> NewWithin(past, key, now, storetime, i);
      forall k: nat | NewWithin(past, key, now, storetime, k) ensures k <= i && past[k].time <= past[i].time {
        assert log[k].time <= log[i].time || k == i;
      }
    } else {
      NoNew(past, key);
    }
  }

  /** So two News of one key are at least the store time apart. */
  lemma NewsAreApart(log: seq<Observation>, storetime: nat, i: nat, j: nat)
    requires Judged(log, storetime) && i < j < |log| && log[i].key == log[j].key
    requires log[i].result == New && log[j].result == New
    ensures log[j].time >= log[i].time + storetime
  {
    NewIff(log, storetime, j);
    assert log[..j][i] == log[i];
    if log[j].time < log[i].time + storetime {
      assert NewWithin(log[..j], log[j].key, log[j].time, storetime, i);
    }
  }

  /** Neighbouring observations of a key: nothing about the key lies between them. */
  predicate Adjacent(log: seq<Observation>, i: nat, j: nat) {
    && i < j < |log| && log[i].key == log[j].key
    && forall k :: i < k < j ==> log[k].key != log[j].key
  }

  lemma {:induction false} SinceNewSkips(log: seq<Observation>, key: DupeKey, m: nat, n: nat)
    requires m <= n <= |log| && forall k :: m <= k < n ==> log[k].key != key
    ensures SinceNew(log[..n], key) == SinceNew(log[..m], key)
    decreases n
  {
    if m < n {
      assert log[..n][..n - 1] == log[..n - 1];
      SinceNewSkips(log, key, m, n - 1);
    }
  }

  /** The duplicates after a New count 2, 3, 4, ... */
  lemma DuplicatesCount(log: seq<Observation>, storetime: nat, i: nat, j: nat)
    requires Judged(log, storetime) && Adjacent(log, i, j) && log[j].result.Duplicate?
    ensures log[j].result.seenCount == if log[i].result == New then 2 else log[i].result.seenCount + 1
  {
    var key := log[j].key;
    SinceNewSkips(log, key, i + 1, j);
    assert log[..i + 1][..i] == log[..i];
  }

  /** The first observation of a key is New. */
  lemma FirstIsNew(log: seq<Observation>, storetime: nat, j: nat)
    requires Judged(log, storetime) && j < |log| && forall k :: 0 <= k < j ==> log[k].key != log[j].key
    ensures log[j].result == New
  {
    SinceNewSkips(log, log[j].key, 0, j);
  }
}
