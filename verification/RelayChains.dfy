/** What holds over any chain of relays by independent stations (src/digipeater/mod.rs): a hop
    budget that runs out, and marks that stay. */
module RelayChains {
  import opened Text
  import opened Packets
  import opened Digipeater
  import opened RelayCut
  import opened RelayEdit

  // ----- One relay, on paths -----

  /** A station with this configuration turns the first path into the second. */
  predicate Rewrites(before: seq<Via>, config: DigiConfig, after: seq<Via>) {
    && Target(before) < |before|
    && TakeHop(before[Target(before)], config).Replace?
    && MarkCount(before) % 256 <= config.maxHopsDone
    && after == Edited(before, TakeHop(before[Target(before)], config).entries)
  }

  /** The next station reads one rewrite of the path exactly when no ':' of the received header is
      printed again. */
  lemma RelayRewritesPath(p: Packet, config: DigiConfig)
    requires Relays(p, config) && Clean(config.transmitterCall)
    ensures Rewrites(PathOf(p), config, NewPath(p, config))
    ensures Rewrites(PathOf(p), config, PathOf(Relayed(p, config))) <==> NoColonPrinted(Parsed(p), config)
  {
    hide TakeHop, HasOwnMark, MarkCount, NoColonPrinted, Header, PrintVias, Clean, Payload, ParseAddresses, Cut;
    var a := Parsed(p);
    assert PathOf(p) == a.vias;
    DecideReplaces(a.vias, config);
    RelayIsTheIntendedEdit(p, config);
    if !NoColonPrinted(a, config) {
      assert ':' !in config.transmitterCall by { CleanHasNoColon(config.transmitterCall); }
      BrokenPathDiffers(p, config);
    }
  }

  lemma CleanHasNoColon(call: string)
    requires Clean(call)
    ensures ':' !in call && ',' !in call && !EndsWithStar(call)
  {
  }

  lemma BrokenPathDiffers(p: Packet, config: DigiConfig)
    requires Relays(p, config) && Clean(config.transmitterCall) && !NoColonPrinted(Parsed(p), config)
    ensures PathOf(Relayed(p, config)) != NewPath(p, config)
  {
    hide Decide, NoColonPrinted, Header, PrintVias, Payload, ParseAddresses, Cut, Parsable;
    var a := Parsed(p);
    ParsedParts(Addresses(p));
    NewPathColons(a, config);
    PathAfterRelay(p, config);
    RelayedText(p, config);
    if ':' !in a.source && ':' !in a.dest {
      var q := Relayed(p, config);
      assert ':' !in Addresses(q);
      if '>' in Addresses(q) {
        PathFromColonFree(Addresses(q));
      } else {
        NoPath(Addresses(q));
      }
    }
  }

  lemma NoPath(addresses: string)
    requires '>' !in addresses
    ensures PathFrom(addresses) == []
  {
  }

  lemma PathFromColonFree(addresses: string)
    requires ':' !in addresses && '>' in addresses
    ensures ColonFree(PathFrom(addresses))
  {
    ParsedParts(addresses);
  }

  // ----- The hop budget -----

  function HopWeight(v: Via): nat {
    if v.hBit then 0 else if v.ssid == 0 then 1 else v.ssid
  }

  function Weight(vias: seq<Via>): nat {
    if vias == [] then 0 else HopWeight(vias[0]) + Weight(vias[1..])
  }

  lemma {:induction false} WeightConcat(a: seq<Via>, b: seq<Via>)
    ensures Weight(a + b) == Weight(a) + Weight(b)
  {
    if a == [] {
      assert a + b == b;
    } else {
      WeightConcat(a[1..], b);
      assert (a + b)[1..] == a[1..] + b;
    }
  }

  lemma Weight2(v: Via, w: Via)
    ensures Weight([v]) == HopWeight(v)
    ensures Weight([v, w]) == HopWeight(v) + HopWeight(w)
  {
    assert [v, w][1..] == [w] && [w][1..] == [] && [v][1..] == [];
  }

  lemma AroundTarget(vias: seq<Via>, t: nat, entries: seq<Via>)
    requires t == Target(vias) < |vias|
    ensures vias == vias[..t] + ([vias[t]] + vias[t + 1..])
    ensures Edited(vias, entries) == vias[..t] + (entries + vias[t + 1..])
  {
  }

  /** Each relay spends part of the hop budget. */
  lemma RewriteLosesWeight(before: seq<Via>, config: DigiConfig, after: seq<Via>)
    requires Rewrites(before, config, after)
    ensures Weight(after) < Weight(before)
  {
    var t := Target(before);
    var entries := TakeHop(before[t], config).entries;
    AroundTarget(before, t, entries);
    WeightConcat(before[..t], [before[t]] + before[t + 1..]);
    WeightConcat([before[t]], before[t + 1..]);
    WeightConcat(before[..t], entries + before[t + 1..]);
    WeightConcat(entries, before[t + 1..]);
    EntriesShape(before[t], config);
    Weight2(before[t], before[t]);
    Weight2(entries[0], entries[|entries| - 1]);
  }

  /** Station k hears texts[k] and retransmits it as texts[k + 1]. */
  predicate Chain(texts: seq<string>, stations: seq<DigiConfig>) {
    && |texts| == |stations| + 1
    && forall k :: 0 <= k < |stations| ==> Retransmits(texts[k], stations[k], texts[k + 1])
  }

  predicate Retransmits(heard: string, station: DigiConfig, sent: string) {
    Outcome(Receive(heard), station) == Digipeat(sent)
  }

  predicate CleanStations(stations: seq<DigiConfig>) {
    forall k :: 0 <= k < |stations| ==> Clean(stations[k].transmitterCall)
  }

  function PathIn(text: string): seq<Via> {
    PathOf(Receive(text))
  }

  lemma HopRewritesPath(heard: string, station: DigiConfig, sent: string)
    requires Retransmits(heard, station, sent) && Clean(station.transmitterCall)
    ensures Rewrites(PathIn(heard), station, PathIn(sent))
  {
    ColonFreeHeader(Receive(heard), station);
    RelayRewritesPath(Receive(heard), station);
  }

  /** No chain of relays, by whatever stations, is longer than the weight of the first path. */
  lemma {:induction false} ChainsAreBounded(texts: seq<string>, stations: seq<DigiConfig>)
    requires Chain(texts, stations) && CleanStations(stations)
    ensures |stations| <= Weight(PathIn(texts[0]))
    decreases |stations|
  {
    if |stations| > 0 {
      HopRewritesPath(texts[0], stations[0], texts[1]);
      RewriteLosesWeight(PathIn(texts[0]), stations[0], PathIn(texts[1]));
      ChainsAreBounded(texts[1..], stations[1..]);
    }
  }

  // ----- Marks -----

  /** The marked entries of a path, in order. */
  function Marks(vias: seq<Via>): seq<string> {
    if vias == [] then [] else MarkIn(vias[0]) + Marks(vias[1..])
  }

  function MarkIn(v: Via): seq<string> {
    if v.hBit then [v.raw] else []
  }

  lemma {:induction false} MarksConcat(a: seq<Via>, b: seq<Via>)
    ensures Marks(a + b) == Marks(a) + Marks(b)
  {
    hide MarkIn;
    if a == [] {
      assert a + b == b;
    } else {
      var rest := a[1..];
      MarksConcat(rest, b);
      assert a + b == [a[0]] + (rest + b);
      MarksCons(a[0], rest + b);
    }
  }

  lemma MarksCons(v: Via, rest: seq<Via>)
    ensures Marks([v] + rest) == MarkIn(v) + Marks(rest)
  {
    assert ([v] + rest)[1..] == rest;
  }

  lemma Marks2(v: Via, w: Via)
    requires !w.hBit
    ensures Marks([v]) == if v.hBit then [v.raw] else []
    ensures Marks([v, w]) == Marks([v])
  {
    assert [v, w][1..] == [w] && [w][1..] == [] && [v][1..] == [];
  }

  lemma {:induction false} MarkCountIsMarks(vias: seq<Via>)
    ensures MarkCount(vias) == |Marks(vias)|
  {
    if vias != [] {
      var n := |vias| - 1;
      MarkCountIsMarks(vias[..n]);
      assert vias == vias[..n] + [vias[n]];
      MarksConcat(vias[..n], [vias[n]]);
    }
  }

  /** A relay adds its own call as one mark, at the place of the first unmarked entry, and keeps
      every other mark in its order. */
  lemma RewriteAddsOneMark(before: seq<Via>, config: DigiConfig, after: seq<Via>)
    requires Rewrites(before, config, after)
    ensures var t := Target(before);
            && Marks(before) == Marks(before[..t]) + Marks(before[t + 1..])
            && Marks(after) == Marks(before[..t]) + [config.transmitterCall] + Marks(before[t + 1..])
  {
    hide Marks, TakeHop, MarkCount;
    var t := Target(before);
    var entries := TakeHop(before[t], config).entries;
    EntriesShape(before[t], config);
    AroundTarget(before, t, entries);
    hide Target, Edited;
    MarksAround(before[..t], [before[t]], before[t + 1..]);
    MarksAround(before[..t], entries, before[t + 1..]);
    Marks2(before[t], before[t]);
    EntriesMarks(before[t], config);
  }

  /** Of what stands in the target's place only the own call is marked. */
  lemma EntriesMarks(target: Via, config: DigiConfig)
    requires TakeHop(target, config).Replace?
    ensures Marks(TakeHop(target, config).entries) == [config.transmitterCall]
  {
    EntriesShape(target, config);
    hide TakeHop, Upper, MatchesKeyword, ExtractRequestedN;
    var own := Marked(config.transmitterCall);
    Marks2(own, if target.ssid >= 2 then Remaining(target.callsign, target.ssid - 1) else own.(hBit := false));
  }

  lemma MarksAround(a: seq<Via>, b: seq<Via>, c: seq<Via>)
    ensures Marks(a + (b + c)) == Marks(a) + Marks(b) + Marks(c)
  {
    MarksConcat(a, b + c);
    MarksConcat(b, c);
  }

  predicate MarksFormPrefix(vias: seq<Via>) {
    forall i :: Target(vias) <= i < |vias| ==> !vias[i].hBit
  }

  /** Marks that are a prefix of the path stay one. */
  lemma RewriteKeepsPrefix(before: seq<Via>, config: DigiConfig, after: seq<Via>)
    requires Rewrites(before, config, after) && MarksFormPrefix(before)
    ensures MarksFormPrefix(after)
  {
    var t := Target(before);
    var entries := TakeHop(before[t], config).entries;
    EntriesShape(before[t], config);
    PrefixAround(before[..t], entries, before[t + 1..]);
  }

  lemma PrefixAround(a: seq<Via>, b: seq<Via>, c: seq<Via>)
    requires forall i :: 0 <= i < |a| ==> a[i].hBit
    requires 1 <= |b| <= 2 && b[0].hBit && (|b| == 2 ==> !b[1].hBit)
    requires forall i :: 0 <= i < |c| ==> !c[i].hBit
    ensures MarksFormPrefix(a + b + c)
  {
    var s := a + b + c;
    assert forall i :: |a| + |b| <= i < |s| ==> s[i] == c[i - |a| - |b|];
    assert s[|a|] == b[0] && (|b| == 2 ==> s[|a| + 1] == b[1]);
    assert forall i :: 0 <= i < |a| ==> s[i] == a[i];
  }

  /** The number of marks the next station counts, told from the received path alone: up to the first
      ':' that is printed, in front of which a '*' makes one more mark. */
  function MarksRead(vias: seq<Via>, config: DigiConfig): nat {
    var t := Target(vias);
    if t == |vias| || !ColonFree(vias[..t]) then |Marks(Cut(vias[..t]))|
    else if KeepsName(vias[t], config) && ':' in vias[t].callsign
    then |Marks(vias[..t])| + 1 + |MarkIn(ParseVia(Before(vias[t].callsign, ':')))|
    else |Marks(vias[..t])| + 1 + |Marks(Cut(vias[t + 1..]))|
  }

  /** The hop limit: when the marks after a relay are within maxHopsDone + 1. The code counts marks in an
      unsigned byte, so for a header without printed ':' this is so exactly below 256 marks. A ':' in
      source or destination hides the whole path. */
  lemma HopLimit(p: Packet, config: DigiConfig)
    requires Relays(p, config) && Clean(config.transmitterCall)
    ensures var a := Parsed(p);
            var limited := |Marks(PathOf(Relayed(p, config)))| <= config.maxHopsDone + 1;
            && (limited <==> ':' in a.source || ':' in a.dest || MarksRead(a.vias, config) <= config.maxHopsDone + 1)
            && (NoColonPrinted(a, config) ==> (limited <==> |Marks(a.vias)| < 256))
  {
    hide Decide, Target, NoColonPrinted, Header, PrintVias, Payload, ParseAddresses, Cut, Marks, Clean, MarksRead,
         NewPath, Rewrites;
    PathAfterRelay(p, config) by { CleanHasNoColon(config.transmitterCall); }
    RelayRewritesPath(p, config);
    ParsedParts(Addresses(p));
    RewriteMarksRead(Parsed(p).vias, config, NewPath(p, config)) by { assert PathOf(p) == Parsed(p).vias; }
    NoMarks();
    if NoColonPrinted(Parsed(p), config) {
      RewriteHopLimit(PathOf(p), config, PathOf(Relayed(p, config)));
    }
  }

  lemma NoMarks()
    ensures Marks([]) == []
  {
  }

  lemma RewriteMarksRead(before: seq<Via>, config: DigiConfig, after: seq<Via>)
    requires AllParsable(before) && Rewrites(before, config, after) && Clean(config.transmitterCall)
    ensures |Marks(Cut(after))| == MarksRead(before, config)
  {
    hide TakeHop, MarkCount, Cut, Marks, Parsable;
    var t := Target(before);
    var entries := TakeHop(before[t], config).entries;
    AroundTarget(before, t, entries);
    CutConcat(before[..t], entries + before[t + 1..]);
    if ColonFree(before[..t]) {
      CutConcat(entries, before[t + 1..]);
      EntriesColons(before[t], config) by { CleanHasNoColon(config.transmitterCall); }
      MarksConcat(before[..t], Cut(entries + before[t + 1..]));
      EntriesCutMarks(before[t], config);
      MarksConcat(entries, Cut(before[t + 1..]));
    }
  }

  lemma EntriesCutMarks(target: Via, config: DigiConfig)
    requires Parsable(target) && TakeHop(target, config).Replace? && Clean(config.transmitterCall)
    ensures var entries := TakeHop(target, config).entries;
            && Marks(entries) == [config.transmitterCall]
            && (KeepsName(target, config) && ':' in target.callsign ==>
                  |Marks(Cut(entries))| == 1 + |MarkIn(ParseVia(Before(target.callsign, ':')))|)
  {
    hide *;
    EntriesMarks(target, config);
    EntriesShape(target, config);
    if KeepsName(target, config) && ':' in target.callsign {
      CleanHasNoColon(config.transmitterCall);
      RemainingCut(target, config);
      MarkedIs(config.transmitterCall);
      PairCutMarks(Marked(config.transmitterCall), Remaining(target.callsign, target.ssid - 1));
    }
  }

  lemma MarkedIs(call: string)
    ensures Marked(call).raw == call && Marked(call).hBit
  {
  }

  lemma PairCutMarks(own: Via, rest: Via)
    requires own.hBit && ':' !in own.raw && ':' in rest.raw
    ensures |Marks(Cut([own, rest]))| == 1 + |MarkIn(ParseVia(Before(rest.raw, ':')))|
  {
    hide ParseVia, Before;
    var last := ParseVia(Before(rest.raw, ':'));
    assert [own, rest][1..] == [rest];
    assert Cut([own, rest]) == [own] + [last];
    MarksCons(own, [last]);
    assert [last] == [last] + [];
    MarksCons(last, []);
  }

  lemma RemainingCut(v: Via, config: DigiConfig)
    requires KeepsName(v, config) && ':' in v.callsign
    ensures v.ssid >= 2
    ensures ':' in Remaining(v.callsign, v.ssid - 1).raw
    ensures Before(Remaining(v.callsign, v.ssid - 1).raw, ':') == Before(v.callsign, ':')
  {
    var raw := Remaining(v.callsign, v.ssid - 1).raw;
    assert raw == v.callsign + ("-" + PrintU8(v.ssid - 1));
    BeforeOfPrefix(v.callsign, "-" + PrintU8(v.ssid - 1), ':');
  }

  lemma RewriteHopLimit(before: seq<Via>, config: DigiConfig, after: seq<Via>)
    requires Rewrites(before, config, after)
    ensures |Marks(after)| <= config.maxHopsDone + 1 <==> |Marks(before)| < 256
  {
    RewriteAddsOneMark(before, config, after);
    MarkCountIsMarks(before);
  }

  /** The limit on requested hops. The code compares only the digits in the name with maxHopsReq and
      never the remaining count n, so it bounds the n of the New-N hops it relays exactly when it
      refuses the name outright or the limit is the largest byte. */
  lemma RequestLimitIff(name: string, config: DigiConfig)
    requires forall n: u8 :: Upper(Remaining(name, n).raw) != Upper(config.transmitterCall)
    ensures (forall n: u8 :: TakeHop(Remaining(name, n), config).Replace? ==> n <= config.maxHopsReq)
       <==> !MatchesKeyword(name, config.wideKeywords) || ExtractRequestedN(name) > config.maxHopsReq
            || config.maxHopsReq == 255
  {
    hide Upper, MatchesKeyword, ExtractRequestedN, PrintU8;
    assert TakeHop(Remaining(name, 255), config).Replace? <==>
           MatchesKeyword(name, config.wideKeywords) && ExtractRequestedN(name) <= config.maxHopsReq;
  }

  /** A relay leaves its own mark and every mark it found. */
  lemma RewriteKeepsMarks(before: seq<Via>, config: DigiConfig, after: seq<Via>, call: string)
    requires Rewrites(before, config, after)
    requires Upper(call) == Upper(config.transmitterCall) || HasOwnMark(before, call)
    ensures HasOwnMark(after, call)
  {
    hide Upper, MarkCount, HasOwnMark, Target, TakeHop;
    var t := Target(before);
    var entries := TakeHop(before[t], config).entries;
    EntriesShape(before[t], config);
    AroundTarget(before, t, entries);
    OwnMarkConcat(before[..t], [before[t]] + before[t + 1..], call);
    OwnMarkConcat([before[t]], before[t + 1..], call);
    OwnMarkConcat(before[..t], entries + before[t + 1..], call);
    OwnMarkConcat(entries, before[t + 1..], call);
    UnmarkedTarget(before, call);
    if Upper(call) == Upper(config.transmitterCall) {
      MarkedOwn(entries, config.transmitterCall, call);
    }
  }

  lemma OwnMarkConcat(a: seq<Via>, b: seq<Via>, call: string)
    ensures HasOwnMark(a + b, call) <==> HasOwnMark(a, call) || HasOwnMark(b, call)
  {
    hide OwnMark;
    assert forall i :: 0 <= i < |a| ==> (a + b)[i] == a[i];
    assert forall i :: 0 <= i < |b| ==> (a + b)[|a| + i] == b[i];
  }

  lemma UnmarkedTarget(vias: seq<Via>, call: string)
    requires Target(vias) < |vias|
    ensures !HasOwnMark([vias[Target(vias)]], call)
  {
  }

  lemma MarkedOwn(entries: seq<Via>, own: string, call: string)
    requires entries != [] && entries[0] == Marked(own) && Upper(call) == Upper(own)
    ensures HasOwnMark(entries, call)
  {
    assert OwnMark(entries[0], call);
  }

  lemma HopKeepsMarks(heard: string, station: DigiConfig, sent: string, call: string)
    requires Retransmits(heard, station, sent) && Clean(station.transmitterCall)
    requires Upper(call) == Upper(station.transmitterCall) || HasOwnMark(PathIn(heard), call)
    ensures HasOwnMark(PathIn(sent), call)
  {
    HopRewritesPath(heard, station, sent);
    RewriteKeepsMarks(PathIn(heard), station, PathIn(sent), call);
  }

  /** A mark found, or left by station i, is in every later copy of the chain. */
  lemma {:induction false} MarkStaysInChain(texts: seq<string>, stations: seq<DigiConfig>, i: nat, j: nat,
                                            call: string)
    requires Chain(texts, stations) && CleanStations(stations) && i < j <= |stations|
    requires Upper(call) == Upper(stations[i].transmitterCall) || HasOwnMark(PathIn(texts[i]), call)
    ensures HasOwnMark(PathIn(texts[j]), call)
    decreases j - i
  {
    hide Retransmits, HasOwnMark, Upper, Clean, PathIn;
    HopKeepsMarks(texts[i], stations[i], texts[i + 1], call);
    if i + 1 < j {
      MarkStaysInChain(texts, stations, i + 1, j, call);
    }
  }

  lemma OwnMarkIsRefused(text: string, config: DigiConfig)
    requires HasOwnMark(PathIn(text), config.transmitterCall)
    ensures Outcome(Receive(text), config) == Drop(AlreadyDigipeated)
  {
  }

  /** At most one relay per station: it, and every station that uses its call in any letter case,
      answers AlreadyDigipeated to each later copy. */
  lemma RelayedOnceOnly(texts: seq<string>, stations: seq<DigiConfig>, i: nat, j: nat, again: DigiConfig)
    requires Chain(texts, stations) && CleanStations(stations)
    requires i < j <= |stations| && Upper(again.transmitterCall) == Upper(stations[i].transmitterCall)
    ensures Outcome(Receive(texts[j]), again) == Drop(AlreadyDigipeated)
  {
    MarkStaysInChain(texts, stations, i, j, again.transmitterCall);
    OwnMarkIsRefused(texts[j], again);
  }

  /** So no two relays of one packet are by stations with the same call. */
  lemma StationsAreDistinct(texts: seq<string>, stations: seq<DigiConfig>, i: nat, j: nat)
    requires Chain(texts, stations) && CleanStations(stations) && i < j < |stations|
    ensures Upper(stations[i].transmitterCall) != Upper(stations[j].transmitterCall)
  {
    hide Upper;
    assert Retransmits(texts[j], stations[j], texts[j + 1]);
    if Upper(stations[i].transmitterCall) == Upper(stations[j].transmitterCall) {
      RelayedOnceOnly(texts, stations, i, j, stations[j]);
    }
  }

  // ----- Identity -----

  predicate ColonFreeStations(stations: seq<DigiConfig>) {
    forall k :: 0 <= k < |stations| ==> ':' !in stations[k].transmitterCall
  }

  function KeyIn(text: string): DupeKey {
    KeyOf(Receive(text))
  }

  lemma HopKeepsKey(heard: string, station: DigiConfig, sent: string)
    requires Retransmits(heard, station, sent) && ':' !in station.transmitterCall
    ensures KeyIn(sent) == KeyIn(heard)
  {
    ColonFreeHeader(Receive(heard), station);
    RelayKeepsKey(Receive(heard), station);
  }

  /** All copies in a chain share one duplicate key. */
  lemma {:induction false} ChainKeepsKey(texts: seq<string>, stations: seq<DigiConfig>, i: nat, j: nat)
    requires Chain(texts, stations) && ColonFreeStations(stations) && i <= j <= |stations|
    ensures KeyIn(texts[j]) == KeyIn(texts[i])
    decreases j - i
  {
    hide KeyIn, Retransmits;
    if i < j {
      HopKeepsKey(texts[i], stations[i], texts[i + 1]);
      ChainKeepsKey(texts, stations, i + 1, j);
    }
  }

  // ----- Chains that start with a packet off the air -----

  /** A station relays packet p, which need not come from text, and the chain goes on from there. */
  predicate Begins(p: Packet, first: DigiConfig, texts: seq<string>, stations: seq<DigiConfig>) {
    Outcome(p, first) == Digipeat(FirstText(texts)) && Chain(texts, stations)
  }

  function FirstText(texts: seq<string>): string {
    if texts == [] then "" else texts[0]
  }

  /** When the first relay prints no ':' of the received header, the whole chain spends the hop budget of
      the packet, no station of it relays twice, and, for colon-free calls, the key is the packet's. */
  lemma ChainFromPacket(p: Packet, first: DigiConfig, texts: seq<string>, stations: seq<DigiConfig>, j: nat)
    requires Begins(p, first, texts, stations) && j <= |stations|
    requires Clean(first.transmitterCall) && CleanStations(stations) && NoColonPrinted(Parsed(p), first)
    ensures 1 + |stations| <= Weight(PathOf(p))
    ensures forall again: DigiConfig :: Upper(again.transmitterCall) == Upper(first.transmitterCall) ==>
              Outcome(Receive(texts[j]), again) == Drop(AlreadyDigipeated)
    ensures KeyIn(texts[j]) == KeyOf(p)
  {
    hide Rewrites, NoColonPrinted, Clean, Upper, KeyOf, PathOf, Decide, Header, PrintVias, Payload, HasOwnMark, Weight,
         NewPath;
    assert Relays(p, first) && Relayed(p, first) == Receive(texts[0]);
    RelayRewritesPath(p, first);
    RewriteLosesWeight(PathOf(p), first, PathIn(texts[0]));
    ChainsAreBounded(texts, stations);
    forall again: DigiConfig | Upper(again.transmitterCall) == Upper(first.transmitterCall)
      ensures Outcome(Receive(texts[j]), again) == Drop(AlreadyDigipeated)
    {
      RewriteKeepsMarks(PathOf(p), first, PathIn(texts[0]), again.transmitterCall);
      if j > 0 {
        MarkStaysInChain(texts, stations, 0, j, again.transmitterCall);
      }
      OwnMarkIsRefused(texts[j], again);
    }
    CleanHasNoColon(first.transmitterCall);
    RelayKeepsKey(p, first);
    CleanStationsAreColonFree(stations);
    ChainKeepsKey(texts, stations, 0, j);
  }

  lemma CleanStationsAreColonFree(stations: seq<DigiConfig>)
    requires CleanStations(stations)
    ensures ColonFreeStations(stations)
  {
  }
}
