/** The heard-station database (src/history.rs) against the full history of what was heard. */
module Stations {
  import opened Clock
  import opened Text

  datatype StationRecord = StationRecord(
    callsign: string,
    lastHeard: nat,
    sourceInterface: string,
    position: Option<(real, real)>,
    heardCount: nat)

  type Table = map<string, StationRecord>

  predicate Fresh(r: StationRecord, now: nat, ttl: nat) {
    Elapsed(now, r.lastHeard) < ttl
  }

  function HeardTable(entries: Table, callsign: string, sourceInterface: string, position: Option<(real, real)>,
                      now: nat): Table {
    var key := Upper(callsign);
    if key in entries then
      var r := entries[key];
      entries[key := r.(lastHeard := now, sourceInterface := sourceInterface,
                        position := (if position.Some? then position else r.position),
                        heardCount := r.heardCount + 1)]
    else entries[key := StationRecord(key, now, sourceInterface, position, 1)]
  }

  function CleanedTable(entries: Table, now: nat, ttl: nat): Table {
    map k | k in entries && Fresh(entries[k], now, ttl) :: entries[k]
  }

  predicate WasHeardIn(entries: Table, callsign: string, now: nat, ttl: nat) {
    Upper(callsign) in entries && Fresh(entries[Upper(callsign)], now, ttl)
  }

  class HistoryDb {
    const ttl: nat
    var entries: Table

    constructor (ttl: nat)
      ensures this.ttl == ttl && entries == map[]
    {
      this.ttl := ttl;
      entries := map[];
    }

    method Heard(callsign: string, sourceInterface: string, position: Option<(real, real)>, now: nat)
      modifies this
      ensures entries == HeardTable(old(entries), callsign, sourceInterface, position, now)
    {
      var key := Upper(callsign);
      if key in entries {
        var record := entries[key];
        record := record.(lastHeard := now);
        record := record.(sourceInterface := sourceInterface);
        if position.Some? {
          record := record.(position := position);
        }
        record := record.(heardCount := record.heardCount + 1);
        entries := entries[key := record];
      } else {
        entries := entries[key := StationRecord(key, now, sourceInterface, position, 1)];
      }
    }

    function WasHeard(callsign: string, now: nat): (heard: bool)
      reads this
      ensures heard == WasHeardIn(entries, callsign, now, ttl)
    {
      var key := Upper(callsign);
      key in entries && Elapsed(now, entries[key].lastHeard) < ttl
    }

    method Cleanup(now: nat)
      modifies this
      ensures entries == CleanedTable(old(entries), now, ttl)
    {
      entries := map k | k in entries && Fresh(entries[k], now, ttl) :: entries[k];
    }
  }

  /** What a hearing writes: the time, the interface and one more hearing, a new position only when there is
      one, and nothing about any other station. */
  lemma HeardWrites(entries: Table, callsign: string, sourceInterface: string, position: Option<(real, real)>, now: nat)
    ensures var key, next := Upper(callsign), HeardTable(entries, callsign, sourceInterface, position, now);
            && key in next && next[key].lastHeard == now && next[key].sourceInterface == sourceInterface
            && (key in entries ==>
                  && next[key].heardCount == entries[key].heardCount + 1
                  && next[key].callsign == entries[key].callsign
                  && next[key].position == if position == None then entries[key].position else position)
            && (key !in entries ==>
                  next[key].heardCount == 1 && next[key].callsign == key && next[key].position == position)
            && (forall k :: k != key ==> (k in next <==> k in entries))
            && forall k :: k != key && k in entries ==> next[k] == entries[k]
  {
    hide Upper;
  }

  // ----- Whole runs -----

  datatype Event =
    | Heard(callsign: string, sourceInterface: string, position: Option<(real, real)>, now: nat)
    | Cleanup(now: nat)

  function Run(events: seq<Event>, ttl: nat): Table {
    if events == [] then map[]
    else
      var entries := Run(events[..|events| - 1], ttl);
      match events[|events| - 1]
      case Heard(callsign, sourceInterface, position, now) =>
        HeardTable(entries, callsign, sourceInterface, position, now)
      case Cleanup(now) => CleanedTable(entries, now, ttl)
  }

  /** The clock never runs back, up to now. */
  predicate Monotone(events: seq<Event>, now: nat) {
    && (forall i :: 0 <= i < |events| ==> events[i].now <= now)
    && forall i, j :: 0 <= i < j < |events| ==> events[i].now <= events[j].now
  }

  /** Event i heard the station less than ttl ago. */
  predicate RecentlyHeard(events: seq<Event>, callsign: string, now: nat, ttl: nat, i: nat) {
    && i < |events| && events[i].Heard? && Upper(events[i].callsign) == Upper(callsign)
    && now < events[i].now + ttl
  }

  /** When a key was last heard, in the whole history. */
  function LastTime(events: seq<Event>, key: string): Option<nat> {
    if events == [] then None
    else
      var last := events[|events| - 1];
      if last.Heard? && Upper(last.callsign) == key then Some(last.now)
      else LastTime(events[..|events| - 1], key)
  }

  /** The table's entry for a key shows the last hearing; a key without entry was never heard, or
      its last hearing has gone stale. */
  predicate Reflects(entries: Table, last: Option<nat>, key: string, clock: nat, ttl: nat) {
    match last
    case None => key !in entries
    case Some(t) => if key in entries then entries[key].lastHeard == t else Elapsed(clock, t) >= ttl
  }

  lemma {:induction false} RunReflects(events: seq<Event>, ttl: nat, key: string, clock: nat)
    requires Monotone(events, clock)
    ensures Reflects(Run(events, ttl), LastTime(events, key), key, clock, ttl)
  {
    hide Upper, Reflects, HeardTable, CleanedTable;
    if events == [] {
      NothingHeard(key, clock, ttl);
    } else {
      var n := |events| - 1;
      RunReflects(events[..n], ttl, key, events[n].now);
      StepReflects(Run(events[..n], ttl), LastTime(events[..n], key), events[n], key, clock, ttl);
    }
  }

  lemma NothingHeard(key: string, clock: nat, ttl: nat)
    ensures Reflects(map[], None, key, clock, ttl)
  {
  }

  lemma StepReflects(entries: Table, last: Option<nat>, e: Event, key: string, clock: nat, ttl: nat)
    requires Reflects(entries, last, key, e.now, ttl) && e.now <= clock
    ensures match e
            case Heard(callsign, sourceInterface, position, now) =>
              Reflects(HeardTable(entries, callsign, sourceInterface, position, now),
                       if Upper(callsign) == key then Some(now) else last, key, clock, ttl)
            case Cleanup(now) => Reflects(CleanedTable(entries, now, ttl), last, key, clock, ttl)
  {
    hide Upper;
  }

  lemma {:induction false} LastTimeIsLatest(events: seq<Event>, key: string, now: nat)
    requires Monotone(events, now)
    ensures LastTime(events, key).Some? ==>
              exists i: nat :: i < |events| && Hears(events[i], key) && events[i].now == LastTime(events, key).value
    ensures forall i :: 0 <= i < |events| && Hears(events[i], key) ==>
              LastTime(events, key).Some? && events[i].now <= LastTime(events, key).value
  {
    hide Upper;
    if events != [] {
      var n := |events| - 1;
      LastTimeIsLatest(events[..n], key, events[n].now);
      assert forall i :: 0 <= i < n ==> events[..n][i] == events[i];
      if !Hears(events[n], key) && LastTime(events, key).Some? {
        var i: nat :| i < n && Hears(events[..n][i], key) && events[..n][i].now == LastTime(events, key).value;
        assert Hears(events[i], key);
      }
    }
  }

  predicate Hears(e: Event, key: string) {
    e.Heard? && Upper(e.callsign) == key
  }

  /** At any time, a station counts as heard exactly when some hearing in the whole history is less
      than ttl old: no cleanup, past or future, changes an answer. */
  lemma WasHeardIff(events: seq<Event>, ttl: nat, callsign: string, now: nat)
    requires Monotone(events, now)
    ensures WasHeardIn(Run(events, ttl), callsign, now, ttl)
       <==> exists i: nat :: RecentlyHeard(events, callsign, now, ttl, i)
  {
    hide Upper, LastTime, Run;
    var key := Upper(callsign);
    RunReflects(events, ttl, key, now);
    LastTimeIsLatest(events, key, now);
    if WasHeardIn(Run(events, ttl), callsign, now, ttl) {
      var i: nat :| i < |events| && Hears(events[i], key) && events[i].now == LastTime(events, key).value;
      assert RecentlyHeard(events, callsign, now, ttl, i);
    }
    if i: nat :| RecentlyHeard(events, callsign, now, ttl, i) {
      assert Hears(events[i], key);
    }
  }
}
