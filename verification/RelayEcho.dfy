/** A station that hears its packet again over a relay chain: the duplicate window and the viscous
    queue recognise every copy. */
module RelayEcho {
  import opened Packets
  import opened Digipeater
  import opened RelayChains
  import opened RelayEdit
  import Dedupe
  import Viscous

  /** Within the store time of a New, any other copy of the packet from the same relay chain, earlier
      or later in the chain, is reported Duplicate. */
  lemma CopiesAreDuplicates(texts: seq<string>, stations: seq<DigiConfig>, i: nat, j: nat,
                            log: seq<Dedupe.Observation>, storetime: nat, first: nat, again: nat)
    requires Chain(texts, stations) && ColonFreeStations(stations) && i <= |stations| && j <= |stations|
    requires Dedupe.Judged(log, storetime) && first < again < |log|
    requires log[first].key == KeyIn(texts[i]) && log[first].result == Dedupe.New
    requires log[again].key == KeyIn(texts[j]) && log[again].time < log[first].time + storetime
    ensures log[again].result.Duplicate?
  {
    hide Chain, KeyIn, Dedupe.Judge;
    SameKey(texts, stations, i, j);
    Dedupe.NewIff(log, storetime, again);
    assert log[..again][first] == log[first];
    assert Dedupe.NewWithin(log[..again], log[again].key, log[again].time, storetime, first);
  }

  lemma SameKey(texts: seq<string>, stations: seq<DigiConfig>, i: nat, j: nat)
    requires Chain(texts, stations) && ColonFreeStations(stations) && i <= |stations| && j <= |stations|
    ensures KeyIn(texts[i]) == KeyIn(texts[j])
  {
    ChainKeepsKey(texts, stations, 0, i);
    ChainKeepsKey(texts, stations, 0, j);
  }

  /** A station that waits to relay one copy and hears another drops the one it holds: afterwards no
      entry with the key of any stage of the chain is pending, whatever interface it came from. */
  lemma CopiesCancelThePending(texts: seq<string>, stations: seq<DigiConfig>, i: nat, j: nat,
                               pending: seq<Viscous.Pending>, e: Viscous.Pending)
    requires Chain(texts, stations) && ColonFreeStations(stations) && i <= |stations| && j <= |stations|
    requires e in Viscous.Retained(pending, KeyIn(texts[j]))
    ensures KeyOf(e.packet) != KeyIn(texts[i])
  {
    hide Retransmits, KeyOf, Receive, Viscous.Retained, Viscous.Cancelled;
    SameKey(texts, stations, i, j);
    Viscous.CancelKeys(pending, KeyIn(texts[j]));
  }

  /** Over whole runs of the queue: once any copy of the chain has been heard, no entry that waited with
      the key of any copy is ever transmitted. Such an entry goes out only as often as it is added again
      later. */
  lemma HeardCopySilencesTheQueue(texts: seq<string>, stations: seq<DigiConfig>, i: nat, j: nat,
                                  earlier: seq<Viscous.Event>, heard: Packet, later: seq<Viscous.Event>,
                                  e: Viscous.Pending)
    requires Chain(texts, stations) && ColonFreeStations(stations) && i <= |stations| && j <= |stations|
    requires KeyOf(heard) == KeyIn(texts[j]) && KeyOf(e.packet) == KeyIn(texts[i])
    ensures var before := Viscous.Run(Viscous.START, earlier);
            var after := Viscous.Run(Viscous.START, earlier + [Viscous.Heard(heard)] + later);
            && Viscous.CountOf(Viscous.Entries(after.sent), e) - Viscous.CountOf(Viscous.Entries(before.sent), e)
               <= Viscous.CountOf(after.added, e) - Viscous.CountOf(before.added, e)
  {
    hide Retransmits, KeyOf, Receive, Viscous.Step, Viscous.Entries, Viscous.CountOf;
    SameKey(texts, stations, i, j);
    var h := Viscous.Run(Viscous.START, earlier);
    Viscous.RunConcat(Viscous.START, earlier + [Viscous.Heard(heard)], later);
    assert (earlier + [Viscous.Heard(heard)])[..|earlier|] == earlier;
    Viscous.HeardIsNotTransmitted(h, heard, later, e);
    Viscous.HeardSendsNothing(h, heard);
  }
}
