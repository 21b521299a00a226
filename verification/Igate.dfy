/** The two gating directions (src/igate.rs; third-party packets as in chapter 17 of the APRS
    Protocol Reference 1.0.1) and why their composition does not loop. */
module Igate {
  import opened Text
  import opened Packets
  import S = Stations

  datatype GateResult =
    | Gated(line: string)
    | DroppedQuery
    | DroppedForbiddenSource
    | DroppedForbiddenDest
    | DroppedForbiddenVia
    | DroppedDepthExceeded

  const FORBIDDEN_SOURCE_PREFIXES := ["WIDE", "RELAY", "TRACE", "TCPIP", "TCPXX", "NOCALL", "N0CALL"]
  const FORBIDDEN_DEST_PREFIXES := ["TCPIP", "TCPXX", "NOGATE", "RFONLY", "NOCALL", "N0CALL"]
  const FORBIDDEN_VIA_PREFIXES := ["RFONLY", "NOGATE", "TCPIP", "TCPXX"]
  const TX_FORBIDDEN_VIA := ["TCPXX", "NOGATE", "RFONLY", "qAX"]

  const MAX_THIRD_PARTY_DEPTH: nat := 3

  predicate StartsWithAny(s: string, prefixes: seq<string>) {
    exists i :: 0 <= i < |prefixes| && StartsWith(s, prefixes[i])
  }

  predicate IsForbiddenSource(callsign: string) {
    StartsWithAny(callsign, FORBIDDEN_SOURCE_PREFIXES)
  }

  predicate IsForbiddenDestination(callsign: string) {
    StartsWithAny(callsign, FORBIDDEN_DEST_PREFIXES)
  }

  /** The text without one final '*'. */
  function StripStar(s: string): string {
    if |s| > 0 && s[|s| - 1] == '*' then s[..|s| - 1] else s
  }

  predicate IsForbiddenVia(callsign: string) {
    StartsWithAny(StripStar(callsign), FORBIDDEN_VIA_PREFIXES)
  }

  /** The text up to its first CR or LF. */
  function SanitizeLine(s: string): (t: string)
    ensures t <= s && '\r' !in t && '\n' !in t
    ensures |t| < |s| ==> s[|t|] == '\r' || s[|t|] == '\n'
  {
    if s == [] || s[0] == '\r' || s[0] == '\n' then ""
    else [s[0]] + SanitizeLine(s[1..])
  }

  function ExtractViaCallsigns(addresses: string): seq<string> {
    if '>' !in addresses then []
    else Split(Before(After(addresses, '>'), '>'), ',')[1..]
  }

  predicate HasForbiddenVia(vias: seq<string>) {
    exists i :: 0 <= i < |vias| && IsForbiddenVia(vias[i])
  }

  function GateToAprsis(packet: Packet, gateCall: string): GateResult {
    GateInner(packet, gateCall, 0)
  }

  function GateInner(packet: Packet, gateCall: string, depth: nat): GateResult
    decreases MAX_THIRD_PARTY_DEPTH - depth
  {
    var payload := Payload(packet);
    if StartsWith(payload, "?") then DroppedQuery
    else if StartsWith(payload, "}") then
      if depth >= MAX_THIRD_PARTY_DEPTH then DroppedDepthExceeded
      else GateInner(NewPacket(payload[1..], packet.sourceInterface, packet.isAprs), gateCall, depth + 1)
    else if IsForbiddenSource(SourceCall(packet)) then DroppedForbiddenSource
    else if IsForbiddenDestination(DestCall(packet)) then DroppedForbiddenDest
    else if HasForbiddenVia(ExtractViaCallsigns(Addresses(packet))) then DroppedForbiddenVia
    else Gated(GatedLine(packet, gateCall))
  }

  function GatedLine(packet: Packet, gateCall: string): string {
    SanitizeLine(Addresses(packet)) + ",qAR," + gateCall + ":" + SanitizeLine(Payload(packet))
  }

  function MessageAddressee(payload: string): string
    requires StartsWith(payload, ":")
  {
    Trim(Before(payload[1..], ':'))
  }

  predicate HasTxForbiddenVia(vias: seq<string>) {
    exists i :: 0 <= i < |vias| && StartsWithAny(StripStar(vias[i]), TX_FORBIDDEN_VIA)
  }

  /** What the iGate knows of the stations heard on RF, at some time. */
  datatype Heard = Heard(entries: S.Table, now: nat, ttl: nat) {
    predicate Has(callsign: string) {
      S.WasHeardIn(entries, callsign, now, ttl)
    }
  }

  function GateToRf(packet: Packet, gateCall: string, history: Heard): Option<string> {
    var payload := Payload(packet);
    var source, dest := SourceCall(packet), DestCall(packet);
    if StartsWith(payload, "?") || StartsWith(payload, "}") || !StartsWith(payload, ":") then None
    else if StartsWithAny(source, TX_FORBIDDEN_VIA) || StartsWithAny(dest, TX_FORBIDDEN_VIA) then None
    else if HasTxForbiddenVia(ExtractViaCallsigns(Addresses(packet))) then None
    else if !history.Has(MessageAddressee(payload)) || history.Has(source) then None
    else Some(ThirdParty(SanitizeLine(source), SanitizeLine(dest), gateCall, SanitizeLine(payload)))
  }

  function ThirdParty(source: string, dest: string, gateCall: string, payload: string): string {
    "}" + Inner(source, dest, gateCall, payload)
  }

  function Inner(source: string, dest: string, gateCall: string, payload: string): string {
    source + ">" + dest + ",TCPIP," + gateCall + "*:" + payload
  }

  // ----- What is gated -----

  /** The packet inside all third-party headers, and how many there were. */
  function Innermost(p: Packet): (Packet, nat)
    decreases |p.tnc2|
  {
    if StartsWith(Payload(p), "}") then
      var (q, n) := Innermost(NewPacket(Payload(p)[1..], p.sourceInterface, p.isAprs));
      (q, n + 1)
    else (p, 0)
  }

  predicate Acceptable(q: Packet) {
    && !StartsWith(Payload(q), "?")
    && !IsForbiddenSource(SourceCall(q)) && !IsForbiddenDestination(DestCall(q))
    && var vias := ExtractViaCallsigns(Addresses(q));
       forall i :: 0 <= i < |vias| ==> !IsForbiddenVia(vias[i])
  }

  lemma InnermostIsDirect(p: Packet)
    ensures !StartsWith(Payload(Innermost(p).0), "}")
    decreases |p.tnc2|
  {
    hide NewPacket, Payload;
    if StartsWith(Payload(p), "}") {
      ShorterInside(p);
      InnermostIsDirect(NewPacket(Payload(p)[1..], p.sourceInterface, p.isAprs));
    }
  }

  lemma ShorterInside(p: Packet)
    requires StartsWith(Payload(p), "}")
    ensures |NewPacket(Payload(p)[1..], p.sourceInterface, p.isAprs).tnc2| < |p.tnc2|
  {
  }

  /** Unwrapping with the depth limit follows unwrapping without one. */
  lemma {:induction false} GateFollowsUnwrapping(p: Packet, gateCall: string, depth: nat)
    requires depth <= MAX_THIRD_PARTY_DEPTH
    ensures var (q, n) := Innermost(p);
            GateInner(p, gateCall, depth) ==
            if depth + n > MAX_THIRD_PARTY_DEPTH then DroppedDepthExceeded else GateInner(q, gateCall, depth + n)
    decreases |p.tnc2|
  {
    hide NewPacket, Payload, GateInner;
    if StartsWith(Payload(p), "}") {
      ShorterInside(p);
      UnwrapOne(p, gateCall, depth);
      if depth < MAX_THIRD_PARTY_DEPTH {
        GateFollowsUnwrapping(NewPacket(Payload(p)[1..], p.sourceInterface, p.isAprs), gateCall, depth + 1);
      }
    }
  }

  lemma DirectGate(q: Packet, gateCall: string, depth: nat)
    requires !StartsWith(Payload(q), "}")
    ensures GateInner(q, gateCall, depth).Gated? <==> Acceptable(q)
    ensures Acceptable(q) ==> GateInner(q, gateCall, depth).line == GatedLine(q, gateCall)
  {
    hide Payload, Addresses, SourceCall, DestCall, GatedLine, IsForbiddenSource, IsForbiddenDestination,
         IsForbiddenVia, ExtractViaCallsigns;
  }

  /** A packet is gated exactly when at most three third-party headers surround an acceptable packet,
      and the line is made of that packet. */
  lemma GatedIff(p: Packet, gateCall: string)
    ensures var (q, n) := Innermost(p);
            && (GateToAprsis(p, gateCall).Gated? <==> n <= 3 && Acceptable(q))
            && (GateToAprsis(p, gateCall).Gated? ==> GateToAprsis(p, gateCall).line == GatedLine(q, gateCall))
  {
    hide Innermost, GateInner, Acceptable, GatedLine, Payload;
    var (q, n) := Innermost(p);
    InnermostIsDirect(p);
    GateFollowsUnwrapping(p, gateCall, 0);
    DirectGate(q, gateCall, n);
  }

  // ----- The tests, written out -----

  /** Neither of these prefixes ends in '*', so the mark of a used via does not matter. */
  lemma StarDoesNotMatter(via: string, prefix: string)
    requires '*' !in prefix
    ensures prefix <= StripStar(via) <==> prefix <= via
  {
    assert forall i :: 0 <= i < |prefix| ==> prefix[i] in prefix;
  }

  predicate ForbiddenFrom(call: string) {
    || "WIDE" <= call || "RELAY" <= call || "TRACE" <= call || "TCPIP" <= call || "TCPXX" <= call
    || "NOCALL" <= call || "N0CALL" <= call
  }

  predicate ForbiddenTo(call: string) {
    || "TCPIP" <= call || "TCPXX" <= call || "NOGATE" <= call || "RFONLY" <= call || "NOCALL" <= call
    || "N0CALL" <= call
  }

  predicate ForbiddenOver(via: string) {
    "RFONLY" <= via || "NOGATE" <= via || "TCPIP" <= via || "TCPXX" <= via
  }

  predicate ForbiddenToRf(call: string) {
    "TCPXX" <= call || "NOGATE" <= call || "RFONLY" <= call || "qAX" <= call
  }

  lemma {:induction false} StartsWithAnyCons(s: string, first: string, rest: seq<string>)
    ensures StartsWithAny(s, [first] + rest) <==> first <= s || StartsWithAny(s, rest)
  {
    var all := [first] + rest;
    assert all[0] == first && forall i :: 0 <= i < |rest| ==> all[i + 1] == rest[i];
    if StartsWithAny(s, rest) {
      var i :| 0 <= i < |rest| && StartsWith(s, rest[i]);
      assert StartsWith(s, all[i + 1]);
    }
  }

  lemma PrefixListsAre(call: string)
    ensures IsForbiddenSource(call) <==> ForbiddenFrom(call)
    ensures IsForbiddenDestination(call) <==> ForbiddenTo(call)
    ensures StartsWithAny(call, FORBIDDEN_VIA_PREFIXES) <==> ForbiddenOver(call)
    ensures StartsWithAny(call, TX_FORBIDDEN_VIA) <==> ForbiddenToRf(call)
  {
    SevenPrefixes(call, "WIDE", "RELAY", "TRACE", "TCPIP", "TCPXX", "NOCALL", "N0CALL");
    SixPrefixes(call, "TCPIP", "TCPXX", "NOGATE", "RFONLY", "NOCALL", "N0CALL");
    FourPrefixes(call, "RFONLY", "NOGATE", "TCPIP", "TCPXX");
    FourPrefixes(call, "TCPXX", "NOGATE", "RFONLY", "qAX");
  }

  lemma FourPrefixes(s: string, a: string, b: string, c: string, d: string)
    ensures StartsWithAny(s, [a, b, c, d]) <==> a <= s || b <= s || c <= s || d <= s
  {
    hide StartsWithAny;
    StartsWithAnyCons(s, a, [b, c, d]);
    StartsWithAnyCons(s, b, [c, d]);
    StartsWithAnyCons(s, c, [d]);
    StartsWithAnyCons(s, d, []);
    assert [a] + [b, c, d] == [a, b, c, d] && [b] + [c, d] == [b, c, d] && [c] + [d] == [c, d] && [d] + [] == [d];
    NoPrefixes(s);
  }

  lemma NoPrefixes(s: string)
    ensures !StartsWithAny(s, [])
  {
  }

  lemma SixPrefixes(s: string, a: string, b: string, c: string, d: string, e: string, f: string)
    ensures StartsWithAny(s, [a, b, c, d, e, f]) <==> a <= s || b <= s || c <= s || d <= s || e <= s || f <= s
  {
    hide StartsWithAny;
    FourPrefixes(s, c, d, e, f);
    StartsWithAnyCons(s, b, [c, d, e, f]);
    StartsWithAnyCons(s, a, [b, c, d, e, f]);
    assert [a] + [b, c, d, e, f] == [a, b, c, d, e, f] && [b] + [c, d, e, f] == [b, c, d, e, f];
  }

  lemma SevenPrefixes(s: string, a: string, b: string, c: string, d: string, e: string, f: string, g: string)
    ensures StartsWithAny(s, [a, b, c, d, e, f, g]) <==>
            a <= s || b <= s || c <= s || d <= s || e <= s || f <= s || g <= s
  {
    hide StartsWithAny;
    SixPrefixes(s, b, c, d, e, f, g);
    StartsWithAnyCons(s, a, [b, c, d, e, f, g]);
    assert [a] + [b, c, d, e, f, g] == [a, b, c, d, e, f, g];
  }

  lemma ForbiddenViaIs(via: string)
    ensures IsForbiddenVia(via) <==> ForbiddenOver(via)
    ensures StartsWithAny(StripStar(via), TX_FORBIDDEN_VIA) <==> ForbiddenToRf(via)
  {
    hide StartsWithAny, StripStar;
    PrefixListsAre(StripStar(via));
    StarDoesNotMatter(via, "RFONLY");
    StarDoesNotMatter(via, "NOGATE");
    StarDoesNotMatter(via, "TCPIP");
    StarDoesNotMatter(via, "TCPXX");
    StarDoesNotMatter(via, "qAX");
  }

  /** What becomes of every packet heard on RF, with the reason when it is dropped, in the order of the tests:
      q is the packet inside its n third-party headers. */
  lemma GateByCase(p: Packet, gateCall: string)
    ensures var (q, n) := Innermost(p);
            GateToAprsis(p, gateCall) ==
            if n > 3 then DroppedDepthExceeded
            else if "?" <= Payload(q) then DroppedQuery
            else if ForbiddenFrom(SourceCall(q)) then DroppedForbiddenSource
            else if ForbiddenTo(DestCall(q)) then DroppedForbiddenDest
            else if exists via :: via in ExtractViaCallsigns(Addresses(q)) && ForbiddenOver(via)
            then DroppedForbiddenVia
            else Gated(SanitizeLine(Addresses(q)) + ",qAR," + gateCall + ":" + SanitizeLine(Payload(q)))
  {
    hide Innermost, Payload, Addresses, SourceCall, DestCall, ExtractViaCallsigns, IsForbiddenSource,
         IsForbiddenDestination, HasForbiddenVia, ForbiddenFrom, ForbiddenTo, ForbiddenOver, SanitizeLine;
    var (q, n) := Innermost(p);
    InnermostIsDirect(p);
    GateFollowsUnwrapping(p, gateCall, 0);
    PrefixListsAre(SourceCall(q));
    PrefixListsAre(DestCall(q));
    ForbiddenViasAre(ExtractViaCallsigns(Addresses(q)));
  }

  lemma ForbiddenViasAre(vias: seq<string>)
    ensures HasForbiddenVia(vias) <==> exists via :: via in vias && ForbiddenOver(via)
    ensures HasTxForbiddenVia(vias) <==> exists via :: via in vias && ForbiddenToRf(via)
  {
    hide IsForbiddenVia, ForbiddenOver, ForbiddenToRf, StartsWithAny, StripStar;
    forall i | 0 <= i < |vias|
      ensures IsForbiddenVia(vias[i]) <==> ForbiddenOver(vias[i])
      ensures StartsWithAny(StripStar(vias[i]), TX_FORBIDDEN_VIA) <==> ForbiddenToRf(vias[i])
    {
      ForbiddenViaIs(vias[i]);
    }
    assert forall via :: via in vias ==> exists i :: 0 <= i < |vias| && vias[i] == via;
  }

  /** The vias of a printed header are its fields behind the destination. */
  lemma ViasOfText(source: string, dest: string, vias: seq<string>)
    requires '>' !in source && '>' !in dest && ',' !in dest
    requires forall v :: v in vias ==> '>' !in v && ',' !in v
    ensures ExtractViaCallsigns(source + ['>'] + Join([dest] + vias, ',')) == vias
  {
    hide ExtractViaCallsigns, Split, Join;
    var fields := [dest] + vias;
    ViasBehind(source, Join(fields, ','));
    JoinChars(fields, ',', '>');
    BeforeAbsent(Join(fields, ','), '>');
    SplitJoin(fields, ',');
  }

  /** When a packet from APRS-IS goes out on RF, and as what: a message, free of the four prefixes in source,
      destination and vias, for an addressee who was heard, from a source who was not. */
  lemma GateToRfIff(packet: Packet, gateCall: string, history: Heard)
    ensures var r := GateToRf(packet, gateCall, history);
            && (r.Some? <==>
                  && ":" <= Payload(packet)
                  && !ForbiddenToRf(SourceCall(packet)) && !ForbiddenToRf(DestCall(packet))
                  && (forall via :: via in ExtractViaCallsigns(Addresses(packet)) ==> !ForbiddenToRf(via))
                  && history.Has(MessageAddressee(Payload(packet))) && !history.Has(SourceCall(packet)))
            && (r.Some? ==>
                  r.value == "}" + (SanitizeLine(SourceCall(packet)) + ">" + SanitizeLine(DestCall(packet)) + ",TCPIP,"
                                    + gateCall + "*:" + SanitizeLine(Payload(packet))))
  {
    hide Payload, Addresses, SourceCall, DestCall, ExtractViaCallsigns, StartsWithAny, HasTxForbiddenVia, ForbiddenToRf,
         SanitizeLine, MessageAddressee;
    PrefixListsAre(SourceCall(packet));
    PrefixListsAre(DestCall(packet));
    ForbiddenViasAre(ExtractViaCallsigns(Addresses(packet)));
    OneOpening(Payload(packet));
  }

  lemma OneOpening(payload: string)
    ensures ":" <= payload ==> !("?" <= payload) && !("}" <= payload)
  {
    if ":" <= payload {
      assert payload[0] == ':';
    }
  }

  /** Over a whole history, wherever its cleanups fall: the addressee must have been heard less than ttl ago, and
      the source must not. */
  lemma GateToRfOverHistory(packet: Packet, gateCall: string, events: seq<S.Event>, now: nat, ttl: nat)
    requires S.Monotone(events, now)
    ensures GateToRf(packet, gateCall, Heard(S.Run(events, ttl), now, ttl)).Some? <==>
            && ":" <= Payload(packet)
            && !ForbiddenToRf(SourceCall(packet)) && !ForbiddenToRf(DestCall(packet))
            && (forall via :: via in ExtractViaCallsigns(Addresses(packet)) ==> !ForbiddenToRf(via))
            && (exists i: nat :: S.RecentlyHeard(events, MessageAddressee(Payload(packet)), now, ttl, i))
            && !(exists i: nat :: S.RecentlyHeard(events, SourceCall(packet), now, ttl, i))
  {
    hide S.Run, S.WasHeardIn, S.RecentlyHeard, GateToRf, Payload, SourceCall, DestCall, MessageAddressee, Addresses,
         ExtractViaCallsigns, ForbiddenToRf;
    GateToRfIff(packet, gateCall, Heard(S.Run(events, ttl), now, ttl));
    if ":" <= Payload(packet) {
      S.WasHeardIff(events, ttl, MessageAddressee(Payload(packet)), now);
    }
    S.WasHeardIff(events, ttl, SourceCall(packet), now);
  }

  /** The addressee of a message is the text between its first two ':', without the blanks around it. */
  lemma AddresseeIs(before: string, name: string, after: string, rest: string)
    requires ':' !in name && (name == "" || (!IsWhitespace(name[0]) && !IsWhitespace(name[|name| - 1])))
    requires forall i :: 0 <= i < |before| ==> before[i] == ' '
    requires forall i :: 0 <= i < |after| ==> after[i] == ' '
    ensures MessageAddressee(":" + before + name + after + ":" + rest) == name
    ensures MessageAddressee(":" + before + name + after) == name
  {
    hide Before, Trim, IsWhitespace;
    var field := before + name + after;
    TrimBetween(before, name, after);
    assert ':' !in field;
    assert (":" + before + name + after + ":" + rest)[1..] == field + [':'] + rest;
    assert (":" + before + name + after)[1..] == field;
    BeforeConcat(field, ':', rest);
    BeforeAbsent(field, ':');
  }

  // ----- One line each -----

  predicate OneLine(s: string) {
    '\r' !in s && '\n' !in s
  }

  /** A gated line is a single line exactly when the gate call is. */
  lemma {:induction false} GatedLineIsOneLine(packet: Packet, gateCall: string, depth: nat)
    requires GateInner(packet, gateCall, depth).Gated?
    ensures OneLine(GateInner(packet, gateCall, depth).line) <==> OneLine(gateCall)
    decreases MAX_THIRD_PARTY_DEPTH - depth
  {
    hide StartsWithAny, Payload, Addresses, SourceCall, DestCall;
    var payload := Payload(packet);
    if StartsWith(payload, "}") {
      GatedLineIsOneLine(NewPacket(payload[1..], packet.sourceInterface, packet.isAprs), gateCall, depth + 1);
    }
  }

  /** So is a frame gated to RF. */
  lemma RfFrameIsOneLine(packet: Packet, gateCall: string, history: Heard)
    requires GateToRf(packet, gateCall, history).Some?
    ensures OneLine(GateToRf(packet, gateCall, history).value) <==> OneLine(gateCall)
  {
    hide StartsWithAny, Payload, Addresses, SourceCall, DestCall;
  }

  // ----- No gating loop -----

  /** Frame f as the payload of a packet, inside further third-party packets: the given headers
      from the outside in. */
  function Nested(headers: seq<string>, f: string): string
    requires headers != []
  {
    if |headers| == 1 then headers[0] + ":" + f
    else headers[0] + ":" + "}" + Nested(headers[1..], f)
  }

  lemma {:induction false} UnwrapsToInner(headers: seq<string>, inner: string, source: string, gateCall: string,
                                          depth: nat)
    requires headers != [] && forall i :: 0 <= i < |headers| ==> ':' !in headers[i]
    ensures GateInner(NewPacket(Nested(headers, "}" + inner), source, true), gateCall, depth) ==
            if depth + |headers| <= MAX_THIRD_PARTY_DEPTH
            then GateInner(NewPacket(inner, source, true), gateCall, depth + |headers|)
            else DroppedDepthExceeded
    decreases |headers|
  {
    hide GateInner, NewPacket, Addresses, Payload;
    var rest := if |headers| == 1 then inner else Nested(headers[1..], "}" + inner);
    var text := Nested(headers, "}" + inner);
    assert text == headers[0] + ":" + ("}" + rest) by { NestedParts(headers, "}" + inner, rest); }
    var p := NewPacket(text, source, true);
    NewPacketParts(headers[0], "}" + rest, source, true);
    assert ("}" + rest)[1..] == rest;
    PacketFields(text, source);
    UnwrapOne(p, gateCall, depth);
    if |headers| > 1 && depth < MAX_THIRD_PARTY_DEPTH {
      UnwrapsToInner(headers[1..], inner, source, gateCall, depth + 1);
    }
  }

  lemma NestedParts(headers: seq<string>, f: string, rest: string)
    requires headers != [] && f != [] && f[0] == '}'
    requires rest == if |headers| == 1 then f[1..] else Nested(headers[1..], f)
    ensures Nested(headers, f) == headers[0] + ":" + ("}" + rest)
  {
    if |headers| == 1 {
      assert f == "}" + rest;
    }
  }

  lemma UnwrapOne(p: Packet, gateCall: string, depth: nat)
    requires StartsWith(Payload(p), "}")
    ensures GateInner(p, gateCall, depth) ==
            if depth >= MAX_THIRD_PARTY_DEPTH then DroppedDepthExceeded
            else GateInner(NewPacket(Payload(p)[1..], p.sourceInterface, p.isAprs), gateCall, depth + 1)
  {
    hide Payload, NewPacket, StartsWithAny, IsForbiddenSource, IsForbiddenDestination, HasForbiddenVia;
    assert Payload(p)[0] == '}';
  }

  lemma MessageGate(p: Packet, gateCall: string, depth: nat)
    requires StartsWith(Payload(p), ":")
    ensures GateInner(p, gateCall, depth).Gated? <==>
            && !IsForbiddenSource(SourceCall(p)) && !IsForbiddenDestination(DestCall(p))
            && !HasForbiddenVia(ExtractViaCallsigns(Addresses(p)))
  {
    hide Payload, StartsWithAny, IsForbiddenSource, IsForbiddenDestination, HasForbiddenVia;
    assert Payload(p)[0] == ':';
  }

  lemma PacketFields(text: string, source: string)
    ensures var p := NewPacket(text, source, true);
            p.tnc2 == text && p.sourceInterface == source && p.isAprs
  {
  }

  /** The inner packet of a third-party frame whose source field holds no ':'. */
  lemma InnerIsBlocked(source: string, dest: string, call: string, payload: string, gateCall: string, iface: string,
                       depth: nat)
    requires ':' !in source && '>' !in source && ':' !in call
    requires '>' !in dest && ',' !in dest && ':' !in dest && StartsWith(payload, ":")
    ensures !GateInner(NewPacket(Inner(source, dest, call, payload), iface, true), gateCall, depth).Gated?
  {
    hide StartsWithAny, NewPacket, Addresses, Payload, SourceCall, DestCall, ExtractViaCallsigns, GateInner;
    var header := source + ">" + dest + ",TCPIP," + call + "*";
    var p := NewPacket(Inner(source, dest, call, payload), iface, true);
    assert Inner(source, dest, call, payload) == header + ":" + payload;
    NewPacketParts(header, payload, iface, true);
    TcpipIsFound(source, dest, call);
    TcpipIsForbidden(ExtractViaCallsigns(header));
    MessageGate(p, gateCall, depth);
  }

  lemma TcpipIsFound(source: string, dest: string, call: string)
    requires '>' !in source && '>' !in dest && ',' !in dest
    ensures var vias := ExtractViaCallsigns(source + ">" + dest + ",TCPIP," + call + "*");
            |vias| >= 1 && vias[0] == "TCPIP"
  {
    hide IndexOf;
    var rest := call + "*";
    var head := dest + [','] + "TCPIP" + [','];
    assert source + ">" + dest + ",TCPIP," + call + "*" == source + ['>'] + (head + rest);
    BeforeConcat(source, '>', head + rest);
    BeforePastPrefix(head, rest, '>');
    var tail := Before(rest, '>');
    hide Split;
    assert head + tail == dest + [','] + ("TCPIP" + [','] + tail);
    SplitConcat(dest, ',', "TCPIP" + [','] + tail);
    SplitConcat("TCPIP", ',', tail);
  }

  lemma TcpipIsForbidden(vias: seq<string>)
    requires |vias| >= 1 && vias[0] == "TCPIP"
    ensures HasForbiddenVia(vias)
  {
    assert FORBIDDEN_VIA_PREFIXES[2] == "TCPIP";
    assert StartsWith(StripStar(vias[0]), FORBIDDEN_VIA_PREFIXES[2]);
    assert IsForbiddenVia(vias[0]);
  }

  /** With a ':' in the source field the header breaks off there, and the TCPIP mark is no longer in
      it; only a forbidden source or destination still blocks the packet. */
  lemma BrokenHeader(source: string, dest: string, call: string, payload: string, gateCall: string, iface: string,
                     depth: nat)
    requires ':' in source && '>' !in source
    requires IndexOf(source, ':') + 1 < |source| && source[IndexOf(source, ':') + 1] == ':'
    requires '>' !in dest && ',' !in dest && ':' !in dest
    ensures GateInner(NewPacket(Inner(source, dest, call, payload), iface, true), gateCall, depth).Gated?
       <==> !IsForbiddenSource(source) && !IsForbiddenDestination(dest)
  {
    hide NewPacket, Addresses, Payload, SourceCall, DestCall, IsForbiddenSource, IsForbiddenDestination,
         GateInner, HasForbiddenVia, Inner, StartsWith;
    var p := NewPacket(Inner(source, dest, call, payload), iface, true);
    BrokenFields(source, dest, call, payload, iface);
    assert '>' !in source[..IndexOf(source, ':')];
    assert ExtractViaCallsigns(Addresses(p)) == [];
    NoViasNoForbidden();
    MessageGate(p, gateCall, depth);
  }

  lemma BrokenFields(source: string, dest: string, call: string, payload: string, iface: string)
    requires ':' in source && '>' !in source
    requires IndexOf(source, ':') + 1 < |source| && source[IndexOf(source, ':') + 1] == ':'
    requires '>' !in dest && ',' !in dest && ':' !in dest
    ensures var p := NewPacket(Inner(source, dest, call, payload), iface, true);
            && Addresses(p) == source[..IndexOf(source, ':')] && StartsWith(Payload(p), ":")
            && SourceCall(p) == source && DestCall(p) == dest
  {
    hide NewPacket, Addresses, Payload, SourceCall, DestCall, Inner, StartsWith;
    var i := IndexOf(source, ':');
    var header, rest := source[..i], source[i + 1..] + ">" + dest + ",TCPIP," + call + "*:" + payload;
    var text := Inner(source, dest, call, payload);
    InnerShapes(source, dest, call, payload, i);
    NewPacketParts(header, rest, iface, true);
    PacketFields(text, iface);
    CallsOf(NewPacket(text, iface, true), source, dest, ',', "TCPIP," + call + "*:" + payload);
    BeforeAbsent(dest, '>');
    BeforeAbsent(dest, ':');
  }

  lemma InnerShapes(source: string, dest: string, call: string, payload: string, i: nat)
    requires i + 1 < |source| && source[i] == ':' && source[i + 1] == ':'
    ensures var text := Inner(source, dest, call, payload);
            var rest := source[i + 1..] + ">" + dest + ",TCPIP," + call + "*:" + payload;
            && text == source[..i] + ":" + rest && StartsWith(rest, ":")
            && text == source + ['>'] + (dest + [','] + ("TCPIP," + call + "*:" + payload))
  {
    assert source == source[..i] + ":" + source[i + 1..];
  }

  lemma NoViasNoForbidden()
    ensures !HasForbiddenVia([])
  {
  }

  /** In a packet whose payload is a message, a ':' that survives in the source field is followed by
      the second ':' that opens the message. */
  lemma DoubleColon(text: string)
    requires StartsWith(Payload(NewPacket(text, "", true)), ":")
    ensures var source := SanitizeLine(Before(text, '>'));
            ':' in source ==> IndexOf(source, ':') + 1 < |source| && source[IndexOf(source, ':') + 1] == ':'
  {
    var source := SanitizeLine(Before(text, '>'));
    if ':' in source {
      assert ':' in text by { assert source <= text; }
      ColonPayload(text);
      CutAtNoColon(text, source);
    }
  }

  /** A prefix of text that stops only at a character other than ':' keeps a doubled first ':'. */
  lemma CutAtNoColon(text: string, source: string)
    requires source <= text && ':' in source && (|source| < |text| ==> text[|source|] != ':')
    requires IndexOf(text, ':') + 1 < |text| && text[IndexOf(text, ':') + 1] == ':'
    ensures IndexOf(source, ':') + 1 < |source| && source[IndexOf(source, ':') + 1] == ':'
  {
    var k :| 0 <= k < |source| && source[k] == ':';
    assert text[k] == ':';
    IndexOfUnique(source, ':', IndexOf(text, ':'));
  }

  lemma ColonPayload(text: string)
    requires ':' in text && StartsWith(Payload(NewPacket(text, "", true)), ":")
    ensures IndexOf(text, ':') + 1 < |text| && text[IndexOf(text, ':') + 1] == ':'
  {
    hide IndexOf;
    var i := IndexOf(text, ':');
    assert i < |text|;
    assert Payload(NewPacket(text, "", true)) == if i + 1 < |text| then text[i + 1..] else "";
  }

  /** A line from APRS-IS as the packet the gate sees. */
  function FromAprsis(text: string): Packet {
    NewPacket(text, "APRSIS", true)
  }

  lemma RfFrameParts(p: Packet, call: string, history: Heard)
    requires GateToRf(p, call, history).Some?
    ensures StartsWith(Payload(p), ":")
    ensures GateToRf(p, call, history).value
         == "}" + Inner(SanitizeLine(SourceCall(p)), SanitizeLine(DestCall(p)), call, SanitizeLine(Payload(p)))
  {
    hide StartsWithAny, Addresses, ExtractViaCallsigns, SourceCall, DestCall, Payload, SanitizeLine, Inner;
  }

  /** The RF frame made of a line from APRS-IS, received again inside any headers: it is gated back
      exactly when it can still be unwrapped, its source field keeps a ':', and neither the source
      nor the destination is forbidden. */
  lemma GatedBackIff(text: string, call: string, history: Heard, headers: seq<string>, iface: string, gateCall: string)
    requires GateToRf(FromAprsis(text), call, history).Some?
    requires ':' !in call && headers != [] && forall i :: 0 <= i < |headers| ==> ':' !in headers[i]
    ensures var p := FromAprsis(text);
            var source, dest := SanitizeLine(SourceCall(p)), SanitizeLine(DestCall(p));
            var echo := NewPacket(Nested(headers, GateToRf(p, call, history).value), iface, true);
            GateToAprsis(echo, gateCall).Gated? <==>
            && |headers| <= 3 && ':' in source
            && !IsForbiddenSource(source) && !IsForbiddenDestination(dest)
  {
    hide GateInner, GateToRf, NewPacket, SourceCall, DestCall, Payload, SanitizeLine, Inner, StartsWith, FromAprsis,
         IsForbiddenSource, IsForbiddenDestination, Nested;
    var p := FromAprsis(text);
    var source, dest, payload := SanitizeLine(SourceCall(p)), SanitizeLine(DestCall(p)), SanitizeLine(Payload(p));
    RfFrameParts(p, call, history);
    UnwrapsToInner(headers, Inner(source, dest, call, payload), iface, gateCall, 0);
    MessagePayload(Payload(p));
    SourceField(text);
    CleanDest(p);
    if |headers| <= MAX_THIRD_PARTY_DEPTH {
      if ':' in source {
        BrokenHeader(source, dest, call, payload, gateCall, iface, |headers|);
      } else {
        InnerIsBlocked(source, dest, call, payload, gateCall, iface, |headers|);
      }
    }
  }

  lemma SourceField(text: string)
    requires StartsWith(Payload(FromAprsis(text)), ":")
    ensures var source := SanitizeLine(SourceCall(FromAprsis(text)));
            && '>' !in source
            && (':' in source ==> IndexOf(source, ':') + 1 < |source| && source[IndexOf(source, ':') + 1] == ':')
  {
    hide SanitizeLine;
    assert Payload(FromAprsis(text)) == Payload(NewPacket(text, "", true));
    DoubleColon(text);
    assert SourceCall(FromAprsis(text)) == Before(text, '>');
  }

  lemma MessagePayload(payload: string)
    requires StartsWith(payload, ":")
    ensures StartsWith(SanitizeLine(payload), ":")
  {
  }

  lemma CleanDest(p: Packet)
    ensures var dest := SanitizeLine(DestCall(p));
            '>' !in dest && ',' !in dest && ':' !in dest
  {
    var a := Before(After(p.tnc2, '>'), '>');
    var b := Before(a, ',');
    var dest := SanitizeLine(DestCall(p));
    assert dest <= Before(b, ':') <= b <= a;
    assert forall c :: c in dest ==> c in Before(b, ':') && c in b && c in a;
  }

  /** No loop: a packet whose '>' comes before its first ':' is never gated back, whatever headers
      and wrappers the RF frame meets and whichever gate hears it. */
  lemma NoGatingLoop(text: string, call: string, history: Heard, headers: seq<string>, iface: string, gateCall: string)
    requires GateToRf(FromAprsis(text), call, history).Some?
    requires ':' !in call && headers != [] && forall i :: 0 <= i < |headers| ==> ':' !in headers[i]
    requires IndexOf(text, '>') < IndexOf(text, ':')
    ensures !GateToAprsis(NewPacket(Nested(headers, GateToRf(FromAprsis(text), call, history).value), iface, true),
                          gateCall).Gated?
  {
    hide GateToRf, GateToAprsis, Nested, NewPacket, SanitizeLine, IsForbiddenSource, IsForbiddenDestination;
    GatedBackIff(text, call, history, headers, iface, gateCall);
    NoColonInSource(text);
  }

  lemma NoColonInSource(text: string)
    requires IndexOf(text, '>') < IndexOf(text, ':')
    ensures ':' !in SanitizeLine(SourceCall(FromAprsis(text)))
  {
    hide SanitizeLine, IndexOf;
    var source := SanitizeLine(Before(text, '>'));
    assert forall k :: 0 <= k < |source| ==> source[k] == text[k];
  }

  // ----- What a gated line says -----

  predicate ColonBehindHeader(packet: Packet) {
    packet.addrLen < |packet.tnc2| && packet.tnc2[packet.addrLen] == ':'
  }

  /** The vias of a header with the q construct: it joins them only when the header has exactly one '>'. */
  function ViasWithQ(addresses: string, gateCall: string): seq<string> {
    if '>' !in addresses then []
    else if '>' in After(addresses, '>') then ExtractViaCallsigns(addresses)
    else ExtractViaCallsigns(addresses) + ["qAR", gateCall]
  }

  /** Any gated line, read back as a packet r, against the packet q inside all third-party headers. The
      header is the first line of q's, with the q construct, up to its first ':'; the payload is the first
      line of q's. Source and destination stay, as far as they are on that line, and the duplicate key stays
      exactly when only white space was cut off. */
  lemma GatedLineReadsBack(p: Packet, gateCall: string)
    requires GateToAprsis(p, gateCall).Gated? && ':' !in gateCall && ',' !in gateCall && '>' !in gateCall
    ensures var q, r := Innermost(p).0, NewPacket(GateToAprsis(p, gateCall).line, "", true);
            var header := SanitizeLine(Addresses(q));
            && Addresses(r) == (if ':' in header then Before(header, ':') else header + ",qAR," + gateCall)
            && (':' !in header ==>
                  && Payload(r) == SanitizeLine(Payload(q))
                  && ExtractViaCallsigns(Addresses(r)) == ViasWithQ(header, gateCall))
            && ('>' in header ==> SourceCall(r) == SourceCall(q))
            && ('>' in header && ColonBehindHeader(q) ==> DestCall(r) == SanitizeLine(DestCall(q)))
            && ('>' in header && ':' !in header && ColonBehindHeader(q) ==>
                  (KeyOf(r) == KeyOf(q) <==> OneLine(DestCall(q)) && OneLine(TrimEnd(Payload(q)))))
  {
    hide *;
    var q := Innermost(p).0;
    var header, payload := SanitizeLine(Addresses(q)), SanitizeLine(Payload(q));
    GatedIff(p, gateCall);
    LineIs(q, gateCall);
    var line := GatedLine(q, gateCall);
    var r := NewPacket(line, "", true);
    PacketFields(line, "");
    LineHeader(header, gateCall, payload);
    ViasOfHeader(header, gateCall);
    if '>' in header {
      CallsOfHeader(r, header, ',', "qAR," + gateCall + ":" + payload);
      SourceOnLine(q);
      if ColonBehindHeader(q) {
        DestOnLine(q);
        if ':' !in header {
          KeyOfLine(q, r);
        }
      }
    }
  }

  lemma LineIs(q: Packet, gateCall: string)
    ensures GatedLine(q, gateCall)
         == SanitizeLine(Addresses(q)) + ([','] + ("qAR," + gateCall + ":" + SanitizeLine(Payload(q))))
    ensures GatedLine(q, gateCall)
         == SanitizeLine(Addresses(q)) + ",qAR," + gateCall + ":" + SanitizeLine(Payload(q))
  {
    hide SanitizeLine, Addresses, Payload;
    assert ",qAR," + gateCall + ":" + SanitizeLine(Payload(q))
        == [','] + ("qAR," + gateCall + ":" + SanitizeLine(Payload(q)));
  }

  lemma LineHeader(header: string, gateCall: string, payload: string)
    requires ':' !in gateCall
    ensures var r := NewPacket(header + ",qAR," + gateCall + ":" + payload, "", true);
            && Addresses(r) == (if ':' in header then Before(header, ':') else header + ",qAR," + gateCall)
            && (':' !in header ==> Payload(r) == payload)
  {
    hide IndexOf, Payload;
    if ':' in header {
      var i := IndexOf(header, ':');
      IndexOfUnique(header + ",qAR," + gateCall + ":" + payload, ':', i);
    } else {
      NewPacketParts(header + ",qAR," + gateCall, payload, "", true);
    }
  }

  /** The calls of a packet whose text starts with a header and a separator. */
  lemma CallsOfHeader(p: Packet, addresses: string, sep: char, rest: string)
    requires '>' in addresses && (sep == ',' || sep == ':') && p.tnc2 == addresses + ([sep] + rest)
    ensures SourceCall(p) == Before(addresses, '>') && DestCall(p) == DestIn(addresses)
  {
    hide SourceCall, DestCall, IndexOf, Before, After;
    var source, after := Before(addresses, '>'), After(addresses, '>');
    HeaderParts(addresses);
    if '>' in after {
      TwoMarks(p, source, after, [sep] + rest);
      assert p.tnc2 == source + ['>'] + (after + ([sep] + rest));
    } else if ',' in after {
      CommaParts(after);
      var dest, tail := Before(after, ','), After(after, ',');
      CallsWithComma(p, source, dest, tail + [sep] + rest);
      assert p.tnc2 == source + ['>'] + (dest + [','] + (tail + [sep] + rest));
      NoneBefore(after, ',', '>');
      BeforeAbsent(dest, '>');
      BeforeAbsent(after, '>');
    } else {
      BeforeAbsent(after, ',');
      BeforeAbsent(after, '>');
      assert p.tnc2 == source + ['>'] + (after + [sep] + rest);
      CallsOf(p, source, after, sep, rest);
    }
  }

  /** The destination that a header names. */
  function DestIn(addresses: string): string {
    Before(Before(Before(After(addresses, '>'), '>'), ','), ':')
  }

  lemma TwoMarks(p: Packet, source: string, after: string, rest: string)
    requires '>' !in source && '>' in after
    ensures p.tnc2 == source + ['>'] + (after + rest) ==>
              SourceCall(p) == source && DestCall(p) == Before(Before(Before(after, '>'), ','), ':')
  {
    hide IndexOf;
    BeforeConcat(source, '>', after + rest);
    BeforeOfPrefix(after, rest, '>');
  }

  lemma CallsWithComma(p: Packet, source: string, dest: string, more: string)
    requires '>' !in source && ',' !in dest
    ensures p.tnc2 == source + ['>'] + (dest + [','] + more) ==>
              SourceCall(p) == source && DestCall(p) == Before(Before(dest, '>'), ':')
  {
    hide SourceCall, DestCall;
    if p.tnc2 == source + ['>'] + (dest + [','] + more) {
      CallsOf(p, source, dest, ',', more);
    }
  }

  lemma NoneBefore(s: string, sep: char, c: char)
    ensures c !in s ==> c !in Before(s, sep)
  {
  }

  lemma HeaderParts(addresses: string)
    requires '>' in addresses
    ensures addresses == Before(addresses, '>') + ['>'] + After(addresses, '>')
  {
  }

  lemma CommaParts(s: string)
    requires ',' in s
    ensures s == Before(s, ',') + [','] + After(s, ',')
  {
  }

  lemma SourceOnLine(q: Packet)
    requires '>' in SanitizeLine(Addresses(q))
    ensures SourceCall(q) == Before(SanitizeLine(Addresses(q)), '>')
  {
    hide SanitizeLine, IndexOf;
    var header := SanitizeLine(Addresses(q));
    assert header <= Addresses(q) <= q.tnc2;
    assert q.tnc2 == header + q.tnc2[|header|..];
    BeforeOfPrefix(header, q.tnc2[|header|..], '>');
  }

  lemma DestOnLine(q: Packet)
    requires '>' in SanitizeLine(Addresses(q)) && ColonBehindHeader(q)
    ensures SanitizeLine(DestCall(q)) == DestIn(SanitizeLine(Addresses(q)))
  {
    hide SanitizeLine, Before, After, DestCall, SourceCall;
    var addresses := Addresses(q);
    assert forall c :: c in SanitizeLine(addresses) ==> c in addresses;
    assert q.tnc2 == addresses + ([':'] + q.tnc2[q.addrLen + 1..]);
    CallsOfHeader(q, addresses, ':', q.tnc2[q.addrLen + 1..]);
    var after := After(addresses, '>');
    FirstLineAfter(addresses, '>');
    FirstLineBefore(after, '>');
    FirstLineBefore(Before(after, '>'), ',');
    FirstLineBefore(Before(Before(after, '>'), ','), ':');
  }

  lemma {:induction false} FirstLineBefore(s: string, c: char)
    requires c != '\r' && c != '\n'
    ensures SanitizeLine(Before(s, c)) == Before(SanitizeLine(s), c)
  {
    if s != [] && s[0] != c && s[0] != '\r' && s[0] != '\n' {
      FirstLineBefore(s[1..], c);
      assert Before(s, c) == [s[0]] + Before(s[1..], c);
      assert SanitizeLine(s)[1..] == SanitizeLine(s[1..]);
    }
  }

  lemma {:induction false} FirstLineAfter(s: string, c: char)
    requires c in SanitizeLine(s)
    ensures SanitizeLine(After(s, c)) == After(SanitizeLine(s), c)
  {
    FirstLineCons(s);
    AfterCons(s, c);
    AfterCons(SanitizeLine(s), c);
    hide SanitizeLine, After;
    if s[0] != c {
      FirstLineAfter(s[1..], c);
    }
  }

  lemma FirstLineCons(s: string)
    requires SanitizeLine(s) != []
    ensures s != [] && SanitizeLine(s) == [s[0]] + SanitizeLine(s[1..])
    ensures SanitizeLine(s)[0] == s[0] && SanitizeLine(s)[1..] == SanitizeLine(s[1..])
  {
  }

  lemma AfterCons(s: string, c: char)
    requires s != []
    ensures After(s, c) == if s[0] == c then s[1..] else After(s[1..], c)
  {
  }

  lemma KeyOfLine(q: Packet, r: Packet)
    requires SourceCall(r) == SourceCall(q) && DestCall(r) == SanitizeLine(DestCall(q))
    requires Payload(r) == SanitizeLine(Payload(q))
    ensures KeyOf(r) == KeyOf(q) <==> OneLine(DestCall(q)) && OneLine(TrimEnd(Payload(q)))
  {
    hide SourceCall, DestCall, Payload, TrimEnd, SanitizeLine;
    FirstLineTrimmed(Payload(q));
    FirstLineIff(DestCall(q));
    var start := SourceCall(q) + ">";
    assert KeyOf(r).addr == start + DestCall(r) && KeyOf(q).addr == start + DestCall(q);
    assert KeyOf(r).addr[|start|..] == DestCall(r) && KeyOf(q).addr[|start|..] == DestCall(q);
  }

  lemma FirstLineIff(s: string)
    ensures SanitizeLine(s) == s <==> OneLine(s)
  {
    hide SanitizeLine;
    assert forall i :: 0 <= i < |s| ==> s[i] in s;
  }

  lemma FirstLineTrimmed(s: string)
    ensures TrimEnd(SanitizeLine(s)) == TrimEnd(s) <==> OneLine(TrimEnd(s))
  {
    hide SanitizeLine, IsWhitespace;
    var line, t := SanitizeLine(s), TrimEnd(s);
    assert forall i :: 0 <= i < |t| ==> t[i] == s[i] && t[i] in t;
    if OneLine(t) {
      assert t <= line;
      TrimUnique(line, t);
    } else {
      assert forall c :: c in TrimEnd(line) ==> c in line;
    }
  }

  lemma {:induction false} TrimUnique(s: string, t: string)
    requires t <= s && (t == [] || !IsWhitespace(t[|t| - 1]))
    requires forall i :: |t| <= i < |s| ==> IsWhitespace(s[i])
    ensures TrimEnd(s) == t
  {
    hide IsWhitespace;
    var u := TrimEnd(s);
    assert forall i :: 0 <= i < |u| ==> u[i] == s[i];
    assert forall i :: 0 <= i < |t| ==> t[i] == s[i];
    assert u == s[..|u|] && t == s[..|t|];
  }

  lemma ViasOfHeader(header: string, gateCall: string)
    requires '>' !in gateCall && ',' !in gateCall
    ensures ExtractViaCallsigns(header + ",qAR," + gateCall) == ViasWithQ(header, gateCall)
  {
    hide Split, Before, After, ExtractViaCallsigns;
    if '>' in header {
      var source, rest := Before(header, '>'), After(header, '>');
      var more := rest + ([','] + "qAR" + [','] + gateCall);
      HeaderParts(header);
      assert header + ",qAR," + gateCall == source + ['>'] + more;
      ViasBehind(source, more);
      ViasBehind(source, rest);
      if '>' in rest {
        BeforeOfPrefix(rest, [','] + "qAR" + [','] + gateCall, '>');
      } else {
        BeforeAbsent(rest, '>');
        BeforeAbsent(more, '>');
        SplitSnoc(rest, gateCall);
        assert more == rest + [','] + "qAR" + [','] + gateCall;
      }
    } else {
      NoVias(header + ",qAR," + gateCall);
    }
  }

  lemma ViasBehind(source: string, rest: string)
    requires '>' !in source
    ensures ExtractViaCallsigns(source + ['>'] + rest) == Split(Before(rest, '>'), ',')[1..]
  {
    hide Split, Before, IndexOf;
    BeforeConcat(source, '>', rest);
  }

  lemma NoVias(addresses: string)
    requires '>' !in addresses
    ensures ExtractViaCallsigns(addresses) == []
  {
  }

  lemma OneLineStays(s: string)
    requires OneLine(s)
    ensures SanitizeLine(s) == s
  {
  }

  lemma SplitSnoc(rest: string, gateCall: string)
    requires ',' !in gateCall
    ensures Split(rest + [','] + "qAR" + [','] + gateCall, ',') == Split(rest, ',') + ["qAR", gateCall]
  {
    var parts := Split(rest, ',');
    JoinSplit(rest, ',');
    JoinSnoc(parts, "qAR", ',');
    JoinSnoc(parts + ["qAR"], gateCall, ',');
    assert parts + ["qAR"] + [gateCall] == parts + ["qAR", gateCall];
    SplitJoin(parts + ["qAR", gateCall], ',');
  }

  /** No loop in the other direction either: the line of a packet whose source was heard on RF is not sent back
      to RF, by whatever gate, as long as the source is on the first line of the header. */
  lemma NoReturnToRf(p: Packet, gateCall: string, call: string, history: Heard)
    requires GateToAprsis(p, gateCall).Gated?
    requires '>' in SanitizeLine(Addresses(Innermost(p).0)) && history.Has(SourceCall(Innermost(p).0))
    ensures GateToRf(FromAprsis(GateToAprsis(p, gateCall).line), call, history) == None
  {
    hide SanitizeLine, Addresses, SourceCall, DestCall, Innermost, GatedLine, GateToAprsis, FromAprsis, Payload,
         StartsWithAny, HasTxForbiddenVia, Before;
    var q := Innermost(p).0;
    GatedIff(p, gateCall);
    LineIs(q, gateCall);
    AprsisText(GatedLine(q, gateCall));
    CallsOfHeader(FromAprsis(GatedLine(q, gateCall)), SanitizeLine(Addresses(q)), ',',
                  "qAR," + gateCall + ":" + SanitizeLine(Payload(q)));
    SourceOnLine(q);
  }

  lemma AprsisText(text: string)
    ensures FromAprsis(text).tnc2 == text
  {
  }
}
