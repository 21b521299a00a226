/** What one relay does to a packet, as the next station reads it (src/digipeater/mod.rs). */
module RelayEdit {
  import opened Text
  import opened Packets
  import opened Digipeater

  /** A packet as a station hears it over the air. */
  function Receive(tnc2: string): Packet {
    NewPacket(tnc2, "rf", true)
  }

  /** Text that survives being printed with a '*' into a path and read back. */
  predicate Clean(text: string) {
    ',' !in text && ':' !in text && !EndsWithStar(text)
  }

  /** An entry that reading a printed path can yield. */
  predicate Printable(v: Via) {
    Clean(v.raw) && v == ViaOf(v.raw, v.hBit)
  }

  predicate AllPrintable(vias: seq<Via>) {
    forall i :: 0 <= i < |vias| ==> Printable(vias[i])
  }

  /** An entry that parsing any address block can yield: it may hold a ':'. */
  predicate Parsable(v: Via) {
    ',' !in v.raw && !EndsWithStar(v.raw) && v == ViaOf(v.raw, v.hBit)
  }

  predicate AllParsable(vias: seq<Via>) {
    forall i :: 0 <= i < |vias| ==> Parsable(vias[i])
  }

  predicate ColonFree(vias: seq<Via>) {
    forall i :: 0 <= i < |vias| ==> ':' !in vias[i].raw
  }

  lemma ParsedEntry(field: string)
    requires ',' !in field
    ensures Parsable(ParseVia(field)) && (':' !in field ==> ':' !in ParseVia(field).raw)
  {
    if EndsWithStar(field) {
      var raw := TrimEndMatches(field, c => c == '*');
      assert forall c :: c in raw ==> c in field;
    }
  }

  lemma TrimStar(raw: string)
    requires !EndsWithStar(raw)
    ensures TrimEndMatches(raw + "*", c => c == '*') == raw
  {
    assert (raw + "*")[..|raw|] == raw;
    TrimEndIdentity(raw, c => c == '*');
  }

  lemma PrintThenParse(v: Via)
    requires Parsable(v)
    ensures ParseVia(PrintVia(v)) == v
    ensures ',' !in PrintVia(v) && (':' in PrintVia(v) <==> ':' in v.raw)
  {
    if v.hBit {
      TrimStar(v.raw);
    }
  }

  lemma RemainingIsParsable(v: Via)
    requires Parsable(v) && v.ssid >= 2
    ensures Parsable(Remaining(v.callsign, v.ssid - 1))
    ensures ':' in Remaining(v.callsign, v.ssid - 1).raw <==> ':' in v.callsign
  {
    hide PrintU8, ParseU8;
    DigitsAreClean(v.ssid - 1);
    assert v.callsign <= v.raw;
    assert ',' !in v.callsign;
    RemainingSplits(v.callsign, v.ssid - 1);
  }

  /** The number of an entry stands behind its last '-'; without '-', or without a number there, it is 0. */
  lemma EntryForms(name: string, tail: string, hBit: bool)
    requires '-' !in tail
    ensures ViaOf(tail, hBit) == Via(tail, tail, 0, hBit)
    ensures ViaOf(name + "-" + tail, hBit)
         == Via(name + "-" + tail, name, if ParseU8(tail) == None then 0 else ParseU8(tail).value, hBit)
  {
    hide ParseU8, LastIndexOf;
    assert LastIndexOf(tail, '-') == |tail|;
    assert name + "-" + tail == name + ['-'] + tail;
    LastIndexOfConcat(name, '-', tail);
  }

  lemma DigitsAreClean(n: u8)
    ensures var digits := PrintU8(n);
            digits != [] && '-' !in digits && ',' !in digits && ':' !in digits && digits[|digits| - 1] != '*'
  {
    var digits := PrintU8(n);
    forall c | c in digits ensures IsDigit(c) {}
    assert digits[|digits| - 1] in digits;
  }

  lemma RemainingSplits(name: string, n: u8)
    requires n >= 1
    ensures ViaOf(name + "-" + PrintU8(n), false) == Remaining(name, n)
  {
    hide PrintU8, ParseU8;
    var digits := PrintU8(n);
    DigitsAreClean(n);
    assert name + "-" + digits == name + ['-'] + digits;
    LastIndexOfConcat(name, '-', digits);
    ParsePrintU8(n);
  }

  /** A header read back is the header that was printed. */
  lemma ParseHeader(source: string, dest: string, vias: seq<Via>)
    requires '>' !in source && ',' !in dest && AllParsable(vias)
    ensures ParseAddresses(Header(source, dest, PrintVias(vias))) == Some(ParsedAddresses(source, dest, vias))
  {
    hide ParseVias, PrintVias, Before, After, Join, Split;
    var parts := [dest] + PrintVias(vias);
    PrintThenParseAll(vias);
    assert parts[1..] == PrintVias(vias);
    assert Header(source, dest, PrintVias(vias)) == source + ['>'] + Join(parts, ',');
    BeforeConcat(source, '>', Join(parts, ','));
    SplitJoin(parts, ',');
  }

  lemma PrintThenParseAll(vias: seq<Via>)
    requires AllParsable(vias)
    ensures ParseVias(PrintVias(vias)) == vias && forall p :: p in PrintVias(vias) ==> ',' !in p
  {
    hide Parsable, ParseVia, PrintVia;
    forall i | 0 <= i < |vias| ensures ParseVia(PrintVia(vias[i])) == vias[i] && ',' !in PrintVia(vias[i]) {
      PrintThenParse(vias[i]);
    }
  }

  /** What any address block yields; without ':' in the block there is none in the parts. */
  lemma ParsedParts(addresses: string)
    requires ParseAddresses(addresses).Some?
    ensures var a := ParseAddresses(addresses).value;
            && AllParsable(a.vias) && '>' !in a.source && ',' !in a.dest
            && (':' !in addresses ==> ':' !in a.source && ':' !in a.dest && ColonFree(a.vias))
  {
    var parts := Split(After(addresses, '>'), ',');
    forall i | 0 <= i < |parts| ensures ',' !in parts[i] && (':' !in addresses ==> ':' !in parts[i]) {
      assert parts[i] in parts;
    }
    forall i | 0 <= i < |parts| - 1
      ensures Parsable(ParseVia(parts[1..][i])) && (':' !in addresses ==> ':' !in ParseVia(parts[1..][i]).raw)
    {
      ParsedEntry(parts[i + 1]);
    }
  }

  /** A header read back is the header that was printed exactly when its parts keep out of each other's
      separators. */
  lemma ReadsBackIff(source: string, dest: string, vias: seq<Via>)
    ensures ParseAddresses(Header(source, dest, PrintVias(vias))) == Some(ParsedAddresses(source, dest, vias))
       <==> '>' !in source && ',' !in dest && AllParsable(vias)
  {
    hide ParseAddresses, Header, PrintVias, Parsable;
    if '>' !in source && ',' !in dest && AllParsable(vias) {
      ParseHeader(source, dest, vias);
    }
    if ParseAddresses(Header(source, dest, PrintVias(vias))) == Some(ParsedAddresses(source, dest, vias)) {
      ParsedParts(Header(source, dest, PrintVias(vias)));
    }
  }

  /** The target is a keyword entry with hops left after this one: its name is printed again. */
  predicate KeepsName(target: Via, config: DigiConfig) {
    Upper(target.raw) != Upper(config.transmitterCall) && target.ssid >= 2
  }

  lemma EntriesShape(target: Via, config: DigiConfig)
    requires TakeHop(target, config).Replace?
    ensures var own := Marked(config.transmitterCall);
            TakeHop(target, config).entries ==
            if KeepsName(target, config) then [own, Remaining(target.callsign, target.ssid - 1)] else [own]
  {
  }

  /** What stands in the target's place is read back as printed exactly for a clean call and, where
      the name is kept, a name without ':'. */
  lemma EntriesArePrintable(target: Via, config: DigiConfig)
    requires Parsable(target) && TakeHop(target, config).Replace?
    ensures AllPrintable(TakeHop(target, config).entries) <==>
            Clean(config.transmitterCall) && (KeepsName(target, config) ==> ':' !in target.callsign)
  {
    var entries := TakeHop(target, config).entries;
    EntriesShape(target, config);
    MarkedIsPrintable(config.transmitterCall);
    hide TakeHop, Remaining, Marked, Parsable, Printable, Clean, Upper;
    assert entries[0] == Marked(config.transmitterCall);
    if KeepsName(target, config) {
      RemainingIsParsable(target);
      PrintableIff(entries[1]);
    }
  }

  lemma PrintableIff(v: Via)
    ensures Printable(v) <==> Parsable(v) && ':' !in v.raw
  {
  }

  lemma MarkedIsPrintable(call: string)
    ensures Printable(Marked(call)) <==> Clean(call)
  {
  }

  /** The address block of a packet, for packets that have one. */
  function Parsed(p: Packet): ParsedAddresses
    requires ParseAddresses(Addresses(p)).Some?
  {
    ParseAddresses(Addresses(p)).value
  }

  /** A relay was decided: the parsed header and the entries that replace the target. */
  predicate Relays(p: Packet, config: DigiConfig) {
    Outcome(p, config).Digipeat?
  }

  function NewEntries(p: Packet, config: DigiConfig): seq<Via>
    requires Relays(p, config)
  {
    Decide(Parsed(p).vias, config).entries
  }

  function NewPath(p: Packet, config: DigiConfig): seq<Via>
    requires Relays(p, config)
  {
    DecideReplaces(Parsed(p).vias, config);
    Edited(Parsed(p).vias, NewEntries(p, config))
  }

  /** The retransmitted packet, as the next station receives it. */
  function Relayed(p: Packet, config: DigiConfig): Packet
    requires Relays(p, config)
  {
    Receive(Outcome(p, config).tnc2)
  }

  /** The parts of a received header that a relay prints again hold no ':'. These are all its parts
      but the replaced entry, whose name is printed only in front of a remaining count. */
  predicate NoColonPrinted(a: ParsedAddresses, config: DigiConfig) {
    var t := Target(a.vias);
    && ':' !in a.source && ':' !in a.dest && ColonFree(a.vias[..t])
    && (t < |a.vias| ==> ColonFree(a.vias[t + 1..]) && (KeepsName(a.vias[t], config) ==> ':' !in a.vias[t].callsign))
  }

  /** Reading a relayed packet back gives the old source, destination and payload and a path in
      which only the first unmarked entry has been replaced - exactly when the station call is clean
      and no ':' of the received header is printed again. A ':' that stands only in the entry that is
      replaced does no harm. */
  lemma RelayIsTheIntendedEdit(p: Packet, config: DigiConfig)
    requires Relays(p, config)
    ensures Clean(config.transmitterCall) && NoColonPrinted(Parsed(p), config) <==>
            && ParseAddresses(Addresses(Relayed(p, config)))
               == Some(ParsedAddresses(Parsed(p).source, Parsed(p).dest, NewPath(p, config)))
            && Payload(Relayed(p, config)) == Payload(p)
  {
    hide TakeHop, HasOwnMark, MarkCount, Header, PrintVias, AllPrintable, KeepsName, Clean, ParseAddresses, Target;
    var a := Parsed(p);
    ParsedParts(Addresses(p));
    NewPathIsPrintable(a, config);
    ReadBack(a.source, a.dest, NewPath(p, config), Payload(p));
    RelayedText(p, config);
  }

  /** In a packet whose header is free of ':' only the station call matters. Every packet made from
      text is one. */
  lemma ColonFreeHeader(p: Packet, config: DigiConfig)
    requires ':' !in Addresses(p) && Relays(p, config)
    ensures NoColonPrinted(Parsed(p), config)
  {
    hide TakeHop, HasOwnMark, MarkCount, Header, PrintVias, Parsable;
    var a := Parsed(p);
    ParsedParts(Addresses(p));
    DecideReplaces(a.vias, config);
    CallsignIsPrefix(a.vias, Target(a.vias));
  }

  lemma CallsignIsPrefix(vias: seq<Via>, t: nat)
    requires AllParsable(vias) && t < |vias|
    ensures vias[t].callsign <= vias[t].raw
  {
  }

  lemma NewPathIsPrintable(a: ParsedAddresses, config: DigiConfig)
    requires AllParsable(a.vias) && Decide(a.vias, config).Replace?
    ensures Target(a.vias) < |a.vias|
    ensures ':' !in a.source && ':' !in a.dest && AllPrintable(Edited(a.vias, Decide(a.vias, config).entries)) <==>
            Clean(config.transmitterCall) && NoColonPrinted(a, config)
  {
    hide TakeHop, HasOwnMark, MarkCount;
    DecideReplaces(a.vias, config);
    var t := Target(a.vias);
    EntriesArePrintable(a.vias[t], config);
    hide Printable, Parsable, KeepsName, Clean;
    PrintableConcat(a.vias[..t], Decide(a.vias, config).entries, a.vias[t + 1..]);
    PrintableIsParsable(a.vias[..t]);
    PrintableIsParsable(a.vias[t + 1..]);
  }

  lemma PrintableIsParsable(vias: seq<Via>)
    ensures AllPrintable(vias) <==> AllParsable(vias) && ColonFree(vias)
  {
    forall i | 0 <= i < |vias| ensures Printable(vias[i]) <==> Parsable(vias[i]) && ':' !in vias[i].raw {
      PrintableIff(vias[i]);
    }
  }

  lemma PrintableConcat(a: seq<Via>, b: seq<Via>, c: seq<Via>)
    ensures AllPrintable(a + b + c) <==> AllPrintable(a) && AllPrintable(b) && AllPrintable(c)
  {
    hide Printable;
    var s := a + b + c;
    assert forall i :: 0 <= i < |a| ==> s[i] == a[i];
    assert forall i :: 0 <= i < |b| ==> s[|a| + i] == b[i];
    assert forall i :: 0 <= i < |c| ==> s[|a| + |b| + i] == c[i];
    assert forall i :: |a| <= i < |a| + |b| ==> s[i] == b[i - |a|];
    assert forall i :: |a| + |b| <= i < |s| ==> s[i] == c[i - |a| - |b|];
  }

  /** A printed packet reads back as what was printed exactly when its parts are free of ':' and its
      path is printable. */
  lemma ReadBack(source: string, dest: string, path: seq<Via>, payload: string)
    requires '>' !in source && ',' !in dest
    ensures var q := Receive(Header(source, dest, PrintVias(path)) + ":" + payload);
            ':' !in source && ':' !in dest && AllPrintable(path) <==>
            ParseAddresses(Addresses(q)) == Some(ParsedAddresses(source, dest, path)) && Payload(q) == payload
  {
    var q := Receive(Header(source, dest, PrintVias(path)) + ":" + payload);
    if ':' !in source && ':' !in dest && AllPrintable(path) {
      HeaderColons(source, dest, path);
      PrintableIsParsable(path);
      NewPacketParts(Header(source, dest, PrintVias(path)), payload, "rf", true);
      ParseHeader(source, dest, path);
    }
    if ParseAddresses(Addresses(q)) == Some(ParsedAddresses(source, dest, path)) {
      assert ':' !in Addresses(q);
      ParsedParts(Addresses(q));
      PrintableIsParsable(path);
    }
  }

  // ----- When a packet is relayed, and into what -----

  /** The station's own call stands unmarked in the path, or a New-N keyword with hops left. */
  predicate Answers(v: Via, config: DigiConfig) {
    || Upper(v.raw) == Upper(config.transmitterCall)
    || (&& v.ssid >= 1 && ExtractRequestedN(v.callsign) <= config.maxHopsReq
        && exists k :: k in config.wideKeywords && StartsWith(Upper(v.callsign), Upper(k)))
  }

  /** Everything before t is marked, and t is not. */
  predicate FirstUnmarked(vias: seq<Via>, t: nat) {
    t < |vias| && !vias[t].hBit && forall i :: 0 <= i < t ==> vias[i].hBit
  }

  /** A packet is relayed exactly when it is APRS with a source, carries no mark of this station,
      its mark count (as a byte) is within the limit, and its first unmarked entry is answered. */
  lemma RelaysIff(p: Packet, config: DigiConfig)
    ensures Relays(p, config) <==>
            && p.isAprs && '>' in Addresses(p)
            && var vias := ParseVias(Split(After(Addresses(p), '>'), ',')[1..]);
               && (forall i :: 0 <= i < |vias| && vias[i].hBit ==> Upper(vias[i].raw) != Upper(config.transmitterCall))
               && MarkCount(vias) % 256 <= config.maxHopsDone
               && exists t: nat :: FirstUnmarked(vias, t) && Answers(vias[t], config)
  {
    hide Upper, MarkCount, ExtractRequestedN, Split, Header, Edited;
    if '>' in Addresses(p) {
      var vias := ParseVias(Split(After(Addresses(p), '>'), ',')[1..]);
      DecideIff(vias, config);
    }
  }

  lemma DecideIff(vias: seq<Via>, config: DigiConfig)
    ensures Decide(vias, config).Replace? <==>
            && (forall i :: 0 <= i < |vias| && vias[i].hBit ==> Upper(vias[i].raw) != Upper(config.transmitterCall))
            && MarkCount(vias) % 256 <= config.maxHopsDone
            && exists t: nat :: FirstUnmarked(vias, t) && Answers(vias[t], config)
  {
    hide Upper, MarkCount, ExtractRequestedN;
    var t := Target(vias);
    assert t < |vias| ==> FirstUnmarked(vias, t);
    forall u: nat | FirstUnmarked(vias, u) ensures u == t {}
    assert HasOwnMark(vias, config.transmitterCall) <==>
           !(forall i :: 0 <= i < |vias| && vias[i].hBit ==> Upper(vias[i].raw) != Upper(config.transmitterCall));
  }

  /** A keyword entry: some keyword, in any letter case, starts its name. */
  predicate NamesKeyword(v: Via, config: DigiConfig) {
    exists k :: k in config.wideKeywords && Upper(k) <= Upper(v.callsign)
  }

  predicate NamesStation(v: Via, config: DigiConfig) {
    Upper(v.raw) == Upper(config.transmitterCall)
  }

  /** The outcome for every packet, with the reason for each drop, in the order of the tests. */
  lemma OutcomeByCase(p: Packet, config: DigiConfig)
    ensures var r := Outcome(p, config);
            if !p.isAprs || '>' !in Addresses(p) then r == Drop(NotAprs)
            else
              var vias := ParseVias(Split(After(Addresses(p), '>'), ',')[1..]);
              && (vias == [] ==> r == Drop(NoViasToProcess))
              && (vias != [] && (exists i :: 0 <= i < |vias| && vias[i].hBit && NamesStation(vias[i], config)) ==>
                    r == Drop(AlreadyDigipeated))
              && (vias != [] && (forall i :: 0 <= i < |vias| && vias[i].hBit ==> !NamesStation(vias[i], config)) ==>
                    && (MarkCount(vias) % 256 > config.maxHopsDone ==> r == Drop(ExceedsMaxHops))
                    && (MarkCount(vias) % 256 <= config.maxHopsDone ==>
                          && ((forall i :: 0 <= i < |vias| ==> vias[i].hBit) ==> r == Drop(HopsExhausted))
                          && forall t: nat :: FirstUnmarked(vias, t) ==> TargetDecides(vias[t], config, r)))
  {
    hide Upper, MarkCount, ExtractRequestedN, Split, Header, Edited, PrintVias, MatchesKeyword, ParseVias,
         TargetDecides;
    if p.isAprs && '>' in Addresses(p) {
      var vias := ParseVias(Split(After(Addresses(p), '>'), ',')[1..]);
      OwnMarkIs(vias, config);
      forall t: nat | FirstUnmarked(vias, t) && !HasOwnMark(vias, config.transmitterCall)
                      && MarkCount(vias) % 256 <= config.maxHopsDone
        ensures TargetDecides(vias[t], config, Outcome(p, config))
      {
        assert t == Target(vias);
        HopDecides(vias[t], config, Outcome(p, config));
      }
    }
  }

  lemma OwnMarkIs(vias: seq<Via>, config: DigiConfig)
    ensures HasOwnMark(vias, config.transmitterCall) <==>
            exists i :: 0 <= i < |vias| && vias[i].hBit && NamesStation(vias[i], config)
  {
    hide Upper;
    if i :| 0 <= i < |vias| && vias[i].hBit && NamesStation(vias[i], config) {
      assert OwnMark(vias[i], config.transmitterCall);
    }
  }

  /** What the first unmarked entry makes of a packet that got so far. */
  predicate TargetDecides(target: Via, config: DigiConfig, r: DigiResult) {
    && (NamesStation(target, config) ==> r.Digipeat?)
    && (!NamesStation(target, config) && !NamesKeyword(target, config) ==> r == Drop(NoViasToProcess))
    && (!NamesStation(target, config) && NamesKeyword(target, config) ==>
          && (target.ssid == 0 ==> r == Drop(HopsExhausted))
          && (target.ssid > 0 && ExtractRequestedN(target.callsign) > config.maxHopsReq ==> r == Drop(ExceedsMaxHops))
          && (target.ssid > 0 && ExtractRequestedN(target.callsign) <= config.maxHopsReq ==> r.Digipeat?))
  }

  lemma HopDecides(target: Via, config: DigiConfig, r: DigiResult)
    requires match TakeHop(target, config)
             case Refuse(reason) => r == Drop(reason)
             case Replace(_) => r.Digipeat?
    ensures TargetDecides(target, config, r)
  {
    hide Upper, ExtractRequestedN;
    assert MatchesKeyword(target.callsign, config.wideKeywords) <==> NamesKeyword(target, config) by {
      KeywordIs(target, config);
    }
  }

  lemma KeywordIs(target: Via, config: DigiConfig)
    ensures MatchesKeyword(target.callsign, config.wideKeywords) <==> NamesKeyword(target, config)
  {
    hide Upper;
  }

  /** The limit on requested hops, on text: a keyword entry "name" n "-" k with k at least 1 and n above the
      limit makes the station drop the packet. */
  lemma ExcessiveRequestIsDropped(p: Packet, config: DigiConfig, t: nat, name: string, n: u8, k: u8)
    requires p.isAprs && '>' in Addresses(p) && (name == "" || !IsDigit(name[|name| - 1]))
    requires var vias := ParseVias(Split(After(Addresses(p), '>'), ',')[1..]);
             && (forall i :: 0 <= i < |vias| && vias[i].hBit ==> !NamesStation(vias[i], config))
             && MarkCount(vias) % 256 <= config.maxHopsDone
             && FirstUnmarked(vias, t) && vias[t].raw == name + PrintU8(n) + "-" + PrintU8(k)
             && NamesKeyword(vias[t], config) && !NamesStation(vias[t], config)
    requires k >= 1 && n > config.maxHopsReq
    ensures Outcome(p, config) == Drop(ExceedsMaxHops)
  {
    hide Upper, MarkCount, ExtractRequestedN, Split, Outcome, ParseVias, PrintU8, NamesKeyword, NamesStation, After,
         Parsable, Addresses;
    var vias := ParseVias(Split(After(Addresses(p), '>'), ',')[1..]);
    ParsedParts(Addresses(p));
    OutcomeByCase(p, config);
    assert vias == ParseAddresses(Addresses(p)).value.vias;
    assert Parsable(vias[t]);
    EntryOfText(vias[t], name + PrintU8(n), k);
    RequestedN(name, n);
  }

  lemma EntryOfText(v: Via, name: string, k: u8)
    requires Parsable(v) && v.raw == name + "-" + PrintU8(k) && k >= 1
    ensures v.callsign == name && v.ssid == k
  {
    hide PrintU8, ParseU8, LastIndexOf;
    RemainingSplits(name, k);
  }

  /** The new path, entry by entry: the first unmarked entry gives way to the station's marked call
      and, for a keyword entry with n of 2 or more, the same name with n - 1; nothing else moves. */
  lemma NewPathIs(p: Packet, config: DigiConfig, t: nat)
    requires Relays(p, config) && FirstUnmarked(Parsed(p).vias, t)
    ensures var before := Parsed(p).vias;
            var own := ViaOf(config.transmitterCall, true);
            var v := before[t];
            var direct := Upper(v.raw) == Upper(config.transmitterCall);
            && (direct || v.ssid == 1 ==> NewPath(p, config) == before[..t] + [own] + before[t + 1..])
            && (!direct && v.ssid != 1 ==>
                  && v.ssid >= 2
                  && NewPath(p, config) == before[..t]
                       + [own, Via(v.callsign + "-" + PrintU8(v.ssid - 1), v.callsign, v.ssid - 1, false)]
                       + before[t + 1..])
  {
    hide Upper, MarkCount, ExtractRequestedN, Split, Header, HasOwnMark;
    var before := Parsed(p).vias;
    DecideReplaces(before, config);
    assert t == Target(before);
  }

  // ----- Identity -----

  lemma {:induction false} TrimEndLength(x: string, payload: string)
    ensures |TrimEnd(x + ":" + payload)| == |x| + 1 + |TrimEnd(payload)|
  {
    var s := x + ":" + payload;
    if payload == [] || !IsWhitespace(payload[|payload| - 1]) {
      assert s[|s| - 1] == if payload == [] then ':' else payload[|payload| - 1];
    } else {
      var shorter := payload[..|payload| - 1];
      TrimEndLength(x, shorter);
      assert s[..|s| - 1] == x + ":" + shorter;
    }
  }

  lemma CallsOfRelayable(p: Packet, source: string, dest: string, fields: seq<string>)
    requires '>' !in source && ',' !in dest && fields != []
    requires Header(source, dest, fields) <= p.tnc2
    ensures SourceCall(p) == source && DestCall(p) == Before(Before(dest, '>'), ':')
  {
    var parts := [dest] + fields;
    assert parts[1..] == fields;
    var rest := Join(fields, ',') + p.tnc2[|Header(source, dest, fields)|..];
    assert p.tnc2 == source + ['>'] + (dest + [','] + rest);
    CallsOf(p, source, dest, ',', rest);
  }

  /** The duplicate key survives a relay exactly when neither the station call nor what is printed
      again of the received header holds a ':'. */
  lemma RelayKeepsKey(p: Packet, config: DigiConfig)
    requires Relays(p, config)
    ensures KeyOf(Relayed(p, config)) == KeyOf(p) <==>
            ':' !in config.transmitterCall && NoColonPrinted(Parsed(p), config)
  {
    hide *;
    RelayKeepsCalls(p, config);
    PayloadAfterRelay(p, config);
    hide Addresses, Parsed;
    KeysAgree(p, Relayed(p, config));
  }

  lemma KeysAgree(p: Packet, q: Packet)
    requires SourceCall(q) == SourceCall(p) && DestCall(q) == DestCall(p)
    ensures KeyOf(q) == KeyOf(p) <==> TrimEnd(Payload(q)) == TrimEnd(Payload(p))
  {
  }

  /** What is retransmitted, as text. */
  lemma RelayedText(p: Packet, config: DigiConfig)
    requires Relays(p, config)
    ensures Relayed(p, config).tnc2
         == Header(Parsed(p).source, Parsed(p).dest, PrintVias(NewPath(p, config))) + ":" + Payload(p)
    ensures NewPath(p, config) != [] && Parsed(p).vias != []
  {
    hide ParseAddresses, TakeHop, HasOwnMark, MarkCount, Header, PrintVias, Payload;
    DecideReplaces(Parsed(p).vias, config);
    EntriesShape(Parsed(p).vias[Target(Parsed(p).vias)], config);
  }

  /** Source and destination call survive every relay. */
  lemma RelayKeepsCalls(p: Packet, config: DigiConfig)
    requires Relays(p, config)
    ensures SourceCall(Relayed(p, config)) == SourceCall(p) && DestCall(Relayed(p, config)) == DestCall(p)
  {
    hide Decide, Header, Split, After, PrintVia, Parsable, SourceCall, DestCall, NewPath, Payload;
    var a := Parsed(p);
    ParsedParts(Addresses(p));
    RelayedText(p, config);
    hide Outcome, Relays, Relayed;
    AddressesAreTheHeader(Addresses(p));
    CallsOfRelayable(p, a.source, a.dest, Split(After(Addresses(p), '>'), ',')[1..]);
    CallsOfRelayable(Relayed(p, config), a.source, a.dest, PrintVias(NewPath(p, config)));
  }

  lemma AddressesAreTheHeader(addresses: string)
    requires '>' in addresses
    ensures var parts := Split(After(addresses, '>'), ',');
            addresses == Header(Before(addresses, '>'), parts[0], parts[1..])
  {
    hide Split, IndexOf, Join;
    var parts := Split(After(addresses, '>'), ',');
    JoinSplit(After(addresses, '>'), ',');
    assert [parts[0]] + parts[1..] == parts;
  }

  /** The payload is untouched when no ':' is printed into the header, and longer than before with
      one, even after trimming. */
  lemma PayloadAfterRelay(p: Packet, config: DigiConfig)
    requires Relays(p, config)
    ensures TrimEnd(Payload(Relayed(p, config))) == TrimEnd(Payload(p)) <==>
            ':' !in config.transmitterCall && NoColonPrinted(Parsed(p), config)
  {
    hide Decide, Header, PrintVias, Payload, NoColonPrinted, AllParsable, ColonFree, ParseAddresses;
    var a := Parsed(p);
    var path := NewPath(p, config);
    ParsedParts(Addresses(p));
    NewPathColons(a, config);
    HeaderColons(a.source, a.dest, path);
    RelayedText(p, config);
    PayloadAfterHeader(Header(a.source, a.dest, PrintVias(path)), Payload(p));
    assert Relayed(p, config) == Receive(Header(a.source, a.dest, PrintVias(path)) + ":" + Payload(p));
  }

  lemma PayloadAfterHeader(header: string, payload: string)
    ensures TrimEnd(Payload(Receive(header + ":" + payload))) == TrimEnd(payload) <==> ':' !in header
  {
    if ':' !in header {
      NewPacketParts(header, payload, "rf", true);
    } else {
      var i := IndexOf(header, ':');
      assert header + ":" + payload == header[..i] + ":" + (header[i + 1..] + ":" + payload);
      NewPacketParts(header[..i], header[i + 1..] + ":" + payload, "rf", true);
      TrimEndLength(header[i + 1..], payload);
    }
  }

  lemma HeaderColons(source: string, dest: string, vias: seq<Via>)
    ensures ':' !in Header(source, dest, PrintVias(vias)) <==> ':' !in source && ':' !in dest && ColonFree(vias)
  {
    hide Join;
    var parts := [dest] + PrintVias(vias);
    var rest := Join(parts, ',');
    JoinChars(parts, ',', ':');
    PartsColons(dest, vias);
    hide PrintVias, ColonFree;
    assert Header(source, dest, PrintVias(vias)) == source + ['>'] + rest;
  }

  lemma PartsColons(dest: string, vias: seq<Via>)
    ensures (exists p :: p in [dest] + PrintVias(vias) && ':' in p) <==> !(':' !in dest && ColonFree(vias))
  {
    hide PrintVia;
    var parts := [dest] + PrintVias(vias);
    assert parts[0] == dest && forall i :: 0 <= i < |vias| ==> parts[i + 1] == PrintVia(vias[i]);
    forall v: Via ensures ':' in PrintVia(v) <==> ':' in v.raw {
      PrintedColon(v);
    }
    if i :| 0 <= i < |vias| && ':' in vias[i].raw {
      assert parts[i + 1] in parts;
    }
  }

  lemma PrintedColon(v: Via)
    ensures ':' in PrintVia(v) <==> ':' in v.raw
  {
  }

  lemma NewPathColons(a: ParsedAddresses, config: DigiConfig)
    requires AllParsable(a.vias) && Decide(a.vias, config).Replace?
    ensures Target(a.vias) < |a.vias|
    ensures ':' !in a.source && ':' !in a.dest && ColonFree(Edited(a.vias, Decide(a.vias, config).entries)) <==>
            ':' !in config.transmitterCall && NoColonPrinted(a, config)
  {
    hide TakeHop, HasOwnMark, MarkCount;
    DecideReplaces(a.vias, config);
    var t := Target(a.vias);
    EntriesColons(a.vias[t], config);
    hide KeepsName, Parsable;
    ColonFreeConcat(a.vias[..t] + Decide(a.vias, config).entries, a.vias[t + 1..]);
    ColonFreeConcat(a.vias[..t], Decide(a.vias, config).entries);
  }

  lemma EntriesColons(target: Via, config: DigiConfig)
    requires Parsable(target) && TakeHop(target, config).Replace?
    ensures ColonFree(TakeHop(target, config).entries) <==>
            ':' !in config.transmitterCall && (KeepsName(target, config) ==> ':' !in target.callsign)
  {
    EntriesShape(target, config);
    var entries := TakeHop(target, config).entries;
    assert entries[0].raw == config.transmitterCall;
    hide TakeHop, Remaining, Parsable;
    if KeepsName(target, config) {
      RemainingIsParsable(target);
      assert entries[1] == Remaining(target.callsign, target.ssid - 1);
    }
  }

  lemma ColonFreeConcat(a: seq<Via>, b: seq<Via>)
    ensures ColonFree(a + b) <==> ColonFree(a) && ColonFree(b)
  {
    var s := a + b;
    assert forall i :: 0 <= i < |a| ==> s[i] == a[i];
    assert forall i :: 0 <= i < |b| ==> s[|a| + i] == b[i];
    assert forall i :: |a| <= i < |s| ==> s[i] == b[i - |a|];
  }
}
