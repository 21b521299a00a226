/** The New-N digipeater engine (src/digipeater/mod.rs): parsing a path, rewriting one hop,
    printing the packet again. */
module Digipeater {
  import opened Text
  import opened Packets

  datatype DigiConfig = DigiConfig(
    transmitterCall: string,
    maxHopsReq: u8,
    maxHopsDone: u8,
    wideKeywords: seq<string>)

  datatype DropReason = NotAprs | NoViasToProcess | HopsExhausted | ExceedsMaxHops | AlreadyDigipeated

  datatype DigiResult = Digipeat(tnc2: string) | Drop(reason: DropReason)

  /** One path entry: its text without the '*' mark, the name and number in that text,
      and whether it is marked as used. */
  datatype Via = Via(raw: string, callsign: string, ssid: u8, hBit: bool)

  datatype ParsedAddresses = ParsedAddresses(source: string, dest: string, vias: seq<Via>)

  function ViaOf(raw: string, hBit: bool): Via {
    var dash := LastIndexOf(raw, '-');
    if dash == |raw| then Via(raw, raw, 0, hBit)
    else
      var ssid := match ParseU8(raw[dash + 1..]) case Some(n) => n case None => 0;
      Via(raw, raw[..dash], ssid, hBit)
  }

  predicate EndsWithStar(s: string) {
    |s| > 0 && s[|s| - 1] == '*'
  }

  function ParseVia(field: string): Via {
    if EndsWithStar(field) then ViaOf(TrimEndMatches(field, c => c == '*'), true) else ViaOf(field, false)
  }

  function ParseVias(fields: seq<string>): (vias: seq<Via>)
    ensures |vias| == |fields|
  {
    seq(|fields|, i requires 0 <= i < |fields| => ParseVia(fields[i]))
  }

  function ParseAddresses(addresses: string): Option<ParsedAddresses> {
    if '>' !in addresses then None
    else
      var parts := Split(After(addresses, '>'), ',');
      Some(ParsedAddresses(Before(addresses, '>'), parts[0], ParseVias(parts[1..])))
  }

  function PrintVia(v: Via): string {
    if v.hBit then v.raw + "*" else v.raw
  }

  function PrintVias(vias: seq<Via>): (fields: seq<string>)
    ensures |fields| == |vias|
  {
    seq(|vias|, i requires 0 <= i < |vias| => PrintVia(vias[i]))
  }

  function Header(source: string, dest: string, fields: seq<string>): string {
    source + ">" + Join([dest] + fields, ',')
  }

  method ReassembleTnc2(source: string, dest: string, vias: seq<string>, payload: string) returns (result: string)
    ensures result == Header(source, dest, vias) + ":" + payload
  {
    result := source + ">" + dest;
    for i := 0 to |vias|
      invariant result == Header(source, dest, vias[..i])
    {
      JoinSnoc([dest] + vias[..i], vias[i], ',');
      assert [dest] + vias[..i + 1] == [dest] + vias[..i] + [vias[i]];
      result := result + "," + vias[i];
    }
    assert vias[..|vias|] == vias;
    result := result + ":" + payload;
  }

  predicate MatchesKeyword(callsign: string, keywords: seq<string>) {
    exists k :: k in keywords && StartsWith(Upper(callsign), Upper(k))
  }

  function TrailingDigits(callsign: string): string {
    if callsign == [] || !IsDigit(callsign[|callsign| - 1]) then []
    else TrailingDigits(callsign[..|callsign| - 1]) + [callsign[|callsign| - 1]]
  }

  function ExtractRequestedN(callsign: string): u8 {
    match ParseU8(TrailingDigits(callsign)) case Some(n) => n case None => 0
  }

  /** The digits at the end of a name are the number it requests, when they fit a byte; otherwise, and without
      digits, it requests 0. */
  lemma RequestedDigits(name: string, digits: string)
    requires name == "" || !IsDigit(name[|name| - 1])
    requires forall c :: c in digits ==> IsDigit(c)
    ensures ExtractRequestedN(name + digits)
         == if digits != "" && DecimalValue(digits) <= 255 then DecimalValue(digits) else 0
  {
    EndingDigits(name, digits);
    if digits != "" {
      assert digits[0] in digits;
    }
  }

  lemma {:induction false} EndingDigits(name: string, digits: string)
    requires name == "" || !IsDigit(name[|name| - 1])
    requires forall c :: c in digits ==> IsDigit(c)
    ensures TrailingDigits(name + digits) == digits
    decreases |digits|
  {
    hide IsDigit;
    if digits == "" {
      assert name + digits == name;
    } else {
      var n := |digits| - 1;
      assert digits[n] in digits && forall c :: c in digits[..n] ==> c in digits;
      EndingDigits(name, digits[..n]);
      assert (name + digits)[..|name + digits| - 1] == name + digits[..n];
    }
  }

  /** So name and number give the number back. */
  lemma RequestedN(name: string, n: u8)
    requires name == "" || !IsDigit(name[|name| - 1])
    ensures ExtractRequestedN(name + PrintU8(n)) == n
  {
    hide PrintU8, ExtractRequestedN, DecimalValue;
    RequestedDigits(name, PrintU8(n));
    PrintedValue(n);
  }

  /** Every further field stands behind a comma. */
  lemma HeaderText(source: string, dest: string, fields: seq<string>, field: string)
    ensures Header(source, dest, []) == source + ">" + dest
    ensures Header(source, dest, fields + [field]) == Header(source, dest, fields) + "," + field
  {
    assert [dest] + [] == [dest];
    JoinSnoc([dest] + fields, field, ',');
    assert [dest] + (fields + [field]) == [dest] + fields + [field];
  }

  predicate OwnMark(v: Via, call: string) {
    v.hBit && Upper(v.raw) == Upper(call)
  }

  predicate HasOwnMark(vias: seq<Via>, call: string) {
    exists i :: 0 <= i < |vias| && OwnMark(vias[i], call)
  }

  function MarkCount(vias: seq<Via>): (n: nat)
    ensures n <= |vias|
  {
    if vias == [] then 0 else MarkCount(vias[..|vias| - 1]) + if vias[|vias| - 1].hBit then 1 else 0
  }

  /** Position of the first unmarked entry, or the length of the path. */
  function Target(vias: seq<Via>): (t: nat)
    ensures t <= |vias| && (t < |vias| ==> !vias[t].hBit)
    ensures forall i :: 0 <= i < t ==> vias[i].hBit
  {
    TargetFrom(vias, 0)
  }

  function TargetFrom(vias: seq<Via>, i: nat): (t: nat)
    requires i <= |vias|
    ensures i <= t <= |vias| && (t < |vias| ==> !vias[t].hBit)
    ensures forall k :: i <= k < t ==> vias[k].hBit
    decreases |vias| - i
  {
    if i == |vias| || !vias[i].hBit then i else TargetFrom(vias, i + 1)
  }

  /** What becomes of the first unmarked entry: a reason to drop the packet, or the
      entries that replace it. */
  datatype Hop = Refuse(reason: DropReason) | Replace(entries: seq<Via>)

  function Marked(call: string): Via {
    ViaOf(call, true)
  }

  function Remaining(name: string, n: u8): Via {
    Via(name + "-" + PrintU8(n), name, n, false)
  }

  function TakeHop(target: Via, config: DigiConfig): Hop {
    if Upper(target.raw) == Upper(config.transmitterCall) then Replace([Marked(config.transmitterCall)])
    else if !MatchesKeyword(target.callsign, config.wideKeywords) then Refuse(NoViasToProcess)
    else if target.ssid == 0 then Refuse(HopsExhausted)
    else if ExtractRequestedN(target.callsign) > config.maxHopsReq then Refuse(ExceedsMaxHops)
    else if target.ssid == 1 then Replace([Marked(config.transmitterCall)])
    else Replace([Marked(config.transmitterCall), Remaining(target.callsign, target.ssid - 1)])
  }

  function Decide(vias: seq<Via>, config: DigiConfig): Hop {
    if vias == [] then Refuse(NoViasToProcess)
    else if HasOwnMark(vias, config.transmitterCall) then Refuse(AlreadyDigipeated)
    else if MarkCount(vias) % 256 > config.maxHopsDone then Refuse(ExceedsMaxHops)
    else if Target(vias) == |vias| then Refuse(HopsExhausted)
    else TakeHop(vias[Target(vias)], config)
  }

  /** The path after a relay: the first unmarked entry gives way to the new entries. */
  function Edited(vias: seq<Via>, entries: seq<Via>): seq<Via>
    requires Target(vias) < |vias|
  {
    vias[..Target(vias)] + entries + vias[Target(vias) + 1..]
  }

  lemma PrintConcat(a: seq<Via>, b: seq<Via>)
    ensures PrintVias(a + b) == PrintVias(a) + PrintVias(b)
  {
  }

  lemma PrintEdited(vias: seq<Via>, entries: seq<Via>)
    requires Target(vias) < |vias|
    ensures PrintVias(Edited(vias, entries))
         == PrintVias(vias[..Target(vias)]) + PrintVias(entries) + PrintVias(vias[Target(vias) + 1..])
  {
    PrintConcat(vias[..Target(vias)], entries);
    PrintConcat(vias[..Target(vias)] + entries, vias[Target(vias) + 1..]);
  }

  lemma DecideReplaces(vias: seq<Via>, config: DigiConfig)
    requires Decide(vias, config).Replace?
    ensures Target(vias) < |vias| && TakeHop(vias[Target(vias)], config) == Decide(vias, config)
  {
  }

  function Outcome(p: Packet, config: DigiConfig): DigiResult {
    if !p.isAprs then Drop(NotAprs)
    else
      match ParseAddresses(Addresses(p))
      case None => Drop(NotAprs)
      case Some(a) =>
        match Decide(a.vias, config)
        case Refuse(reason) => Drop(reason)
        case Replace(entries) =>
          DecideReplaces(a.vias, config);
          Digipeat(Header(a.source, a.dest, PrintVias(Edited(a.vias, entries))) + ":" + Payload(p))
  }

  method ProcessDigipeat(packet: Packet, config: DigiConfig) returns (r: DigiResult)
    ensures r == Outcome(packet, config)
  {
    if !packet.isAprs {
      return Drop(NotAprs);
    }
    var parsed;
    match ParseAddresses(Addresses(packet)) {
      case None => return Drop(NotAprs);
      case Some(p) => parsed := p;
    }
    var vias := parsed.vias;
    if vias == [] {
      return Drop(NoViasToProcess);
    }
    var already := SeekOwnMark(vias, config.transmitterCall);
    if already {
      return Drop(AlreadyDigipeated);
    }
    var hopsDone := CountMarks(vias);
    if hopsDone > config.maxHopsDone {
      return Drop(ExceedsMaxHops);
    }

    var t := Target(vias);
    if t == |vias| {
      return Drop(HopsExhausted);
    }
    var hop := RewriteHop(vias, t, config);
    assert Decide(vias, config) == TakeHop(vias[t], config);
    match hop {
      case NoRelay(reason) => return Drop(reason);
      case Relay(outVias) =>
        var s := ReassembleTnc2(parsed.source, parsed.dest, outVias, Payload(packet));
        return Digipeat(s);
    }
  }

  datatype Rewritten = Relay(fields: seq<string>) | NoRelay(reason: DropReason)

  /** The printed path after the hop at position t. */
  method RewriteHop(vias: seq<Via>, t: nat, config: DigiConfig) returns (r: Rewritten)
    requires t == Target(vias) < |vias|
    ensures match TakeHop(vias[t], config)
            case Refuse(reason) => r == NoRelay(reason)
            case Replace(entries) => r == Relay(PrintVias(Edited(vias, entries)))
  {
    r := HopFields(vias[t], config);
    match r {
      case NoRelay(_) =>
      case Relay(fields) =>
        var outVias := Surround(vias, t, fields, TakeHop(vias[t], config).entries);
        r := Relay(outVias);
    }
  }

  /** The new fields between the copies of the entries before and after the target. */
  method Surround(vias: seq<Via>, t: nat, fields: seq<string>, ghost entries: seq<Via>) returns (out: seq<string>)
    requires t == Target(vias) < |vias| && fields == PrintVias(entries)
    ensures out == PrintVias(Edited(vias, entries))
  {
    PrintEdited(vias, entries);
    out := AppendPrinted([], vias[..t]);
    out := AppendPrinted(out + fields, vias[t + 1..]);
  }

  /** What is pushed in place of the target: a direct match first, then the New-N keywords. */
  method HopFields(target: Via, config: DigiConfig) returns (r: Rewritten)
    ensures match TakeHop(target, config)
            case Refuse(reason) => r == NoRelay(reason)
            case Replace(entries) => r == Relay(PrintVias(entries))
  {
    var outVias := [];
    if Upper(target.raw) == Upper(config.transmitterCall) {
      outVias := outVias + [config.transmitterCall + "*"];
      return Relay(outVias);
    }
    if MatchesKeyword(target.callsign, config.wideKeywords) {
      var n := target.ssid;
      if n == 0 {
        return NoRelay(HopsExhausted);
      }
      if ExtractRequestedN(target.callsign) > config.maxHopsReq {
        return NoRelay(ExceedsMaxHops);
      }
      if n == 1 {
        outVias := outVias + [config.transmitterCall + "*"];
      } else {
        outVias := outVias + [config.transmitterCall + "*"];
        outVias := outVias + [target.callsign + "-" + PrintU8(n - 1)];
      }
      return Relay(outVias);
    }
    return NoRelay(NoViasToProcess);
  }

  method SeekOwnMark(vias: seq<Via>, call: string) returns (found: bool)
    ensures found <==> HasOwnMark(vias, call)
  {
    var ourCallUpper := Upper(call);
    for i := 0 to |vias|
      invariant forall k :: 0 <= k < i ==> !OwnMark(vias[k], call)
    {
      if vias[i].hBit && Upper(vias[i].raw) == ourCallUpper {
        return true;
      }
    }
    return false;
  }

  /** The marks of a path, counted and cast to an unsigned byte. */
  method CountMarks(vias: seq<Via>) returns (n: u8)
    ensures n == MarkCount(vias) % 256
  {
    var count := 0;
    for i := 0 to |vias|
      invariant count == MarkCount(vias[..i])
    {
      assert vias[..i + 1][..i] == vias[..i];
      if vias[i].hBit {
        count := count + 1;
      }
    }
    assert vias[..|vias|] == vias;
    n := count % 256;
  }

  method AppendPrinted(fields: seq<string>, vias: seq<Via>) returns (out: seq<string>)
    ensures out == fields + PrintVias(vias)
  {
    out := fields;
    for i := 0 to |vias|
      invariant out == fields + PrintVias(vias[..i])
    {
      var s := if vias[i].hBit then vias[i].raw + "*" else vias[i].raw;
      out := out + [s];
    }
    assert vias[..|vias|] == vias;
  }
}
