/** The text header of an arbitrary frame (src/ax25.rs): when the digipeater reads from it what the address
    fields say. */
module FrameHeader {
  import opened Text
  import opened Packets
  import opened Ax25
  import D = Digipeater
  import R = RelayEdit

  // ----- The address fields of a frame -----

  function CallAt(frame: seq<byte>, start: nat): string
    requires start + 7 <= |frame|
  {
    CallChars(frame[start..start + 6])
  }

  function SsidAt(frame: seq<byte>, start: nat): u8
    requires start + 7 <= |frame|
  {
    SsidIn(frame[start + 6])
  }

  /** Callsign and ssid as text. */
  function NameAt(frame: seq<byte>, start: nat): string
    requires start + 7 <= |frame|
  {
    CallAt(frame, start) + SsidText(SsidAt(frame, start))
  }

  /** The path entry that a via field stands for. */
  function ViaAt(frame: seq<byte>, start: nat): D.Via
    requires start + 7 <= |frame|
  {
    D.Via(NameAt(frame, start), CallAt(frame, start), SsidAt(frame, start), HBit(frame[start + 6]))
  }

  function PathAt(frame: seq<byte>, start: nat, n: nat): (path: seq<D.Via>)
    requires start + 7 * n <= |frame|
    ensures |path| == n
    decreases n
  {
    if n == 0 then [] else [ViaAt(frame, start)] + PathAt(frame, start + 7, n - 1)
  }

  lemma TextAt(frame: seq<byte>, start: nat, markHBit: bool)
    requires start + 7 <= |frame|
    ensures AddressText(frame[start..start + 7], markHBit)
         == if markHBit then D.PrintVia(ViaAt(frame, start)) else NameAt(frame, start)
    ensures DecodedAddress(frame[start..start + 7], markHBit) ==
            if CallAt(frame, start) == "" then Err(EmptyCallsign)
            else Ok((AddressText(frame[start..start + 7], markHBit), frame[start + 6]))
  {
    hide CallChars, SsidText, HBit, SsidIn;
    var a := frame[start..start + 7];
    assert a[..6] == frame[start..start + 6] && a[6] == frame[start + 6];
    assert NameAt(frame, start) + "" == NameAt(frame, start);
  }

  lemma {:induction false} ViaTexts(frame: seq<byte>, start: nat, count: nat, n: nat)
    requires 1 <= n && count + n <= MAX_VIA_ADDRS && ViaFields(frame, start, n)
    ensures Vias(frame, start, count, false) == Ok((D.PrintVias(PathAt(frame, start, n)), start + 7 * n))
    decreases n
  {
    hide AddressText, DecodedAddress, EndBit, ViaAt, CallChars;
    TextAt(frame, start, true);
    ViaFieldsCons(frame, start, n);
    PrintedCons(ViaAt(frame, start), PathAt(frame, start + 7, n - 1));
    if n > 1 {
      ViaTexts(frame, start + 7, count + 1, n - 1);
    } else {
      assert D.PrintVias([]) == [];
    }
  }

  lemma PrintedCons(v: D.Via, rest: seq<D.Via>)
    ensures D.PrintVias([v] + rest) == [D.PrintVia(v)] + D.PrintVias(rest)
  {
    hide D.PrintVia;
  }

  /** The header of a well-framed frame, printed from its fields. */
  function HeaderAt(frame: seq<byte>, n: nat): string
    requires 14 + 7 * n <= |frame|
  {
    D.Header(NameAt(frame, 7), NameAt(frame, 0), D.PrintVias(PathAt(frame, 14, n)))
  }

  lemma HeaderIs(frame: seq<byte>, n: nat)
    requires WellFramed(frame, n)
    ensures Converted(frame) == Finish(frame, HeaderAt(frame, n), 14 + 7 * n)
  {
    hide AddressText, DecodedAddress, EndBit, CallChars, Finish, D.Header, PathAt, ViaFields, Vias, NameAt;
    TextAt(frame, 0, false);
    TextAt(frame, 7, false);
    CallsAreThere(frame, n);
    if n > 0 {
      ViaTexts(frame, 14, 0, n);
    } else {
      NoVias(frame);
    }
  }

  lemma CallsAreThere(frame: seq<byte>, n: nat)
    requires WellFramed(frame, n)
    ensures CallAt(frame, 0) != "" && CallAt(frame, 7) != ""
  {
  }

  lemma NoVias(frame: seq<byte>)
    requires 14 <= |frame|
    ensures Vias(frame, 14, 0, true) == Ok((D.PrintVias(PathAt(frame, 14, 0)), 14))
  {
  }

  // ----- What is read from it -----

  /** A callsign that a path entry can carry: no ',', and without an ssid behind it neither a '-' of its own nor
      a final '*'. */
  predicate Separable(call: string, ssid: u8) {
    ',' !in call && (ssid == 0 ==> '-' !in call && !D.EndsWithStar(call))
  }

  predicate AllSeparable(path: seq<D.Via>) {
    forall k :: 0 <= k < |path| ==> Separable(path[k].callsign, path[k].ssid)
  }

  /** An entry made of callsign, ssid and H-bit. */
  predicate FromField(v: D.Via) {
    v.raw == v.callsign + SsidText(v.ssid)
  }

  /** Such entries survive the header exactly when their callsign is separable. */
  lemma ParsableIff(v: D.Via)
    requires FromField(v)
    ensures R.Parsable(v) <==> Separable(v.callsign, v.ssid)
  {
    hide LastIndexOf, ParseU8;
    if v.ssid > 0 {
      NameWithSsid(v.callsign, v.ssid, v.hBit);
    } else {
      NameWithoutSsid(v.callsign, v.hBit);
    }
  }

  lemma NameWithSsid(call: string, ssid: u8, hBit: bool)
    requires ssid > 0
    ensures var raw := call + SsidText(ssid);
            && !D.EndsWithStar(raw) && (',' in raw <==> ',' in call)
            && D.ViaOf(raw, hBit) == D.Via(raw, call, ssid, hBit)
  {
    hide PrintU8, D.ViaOf;
    var raw := call + SsidText(ssid);
    assert raw == call + "-" + PrintU8(ssid);
    R.DigitsAreClean(ssid);
    R.RemainingSplits(call, ssid);
    OnlyTheMark(raw, hBit);
  }

  lemma OnlyTheMark(raw: string, hBit: bool)
    ensures D.ViaOf(raw, hBit) == D.ViaOf(raw, false).(hBit := hBit)
  {
  }

  lemma NameWithoutSsid(call: string, hBit: bool)
    ensures call + SsidText(0) == call
    ensures D.ViaOf(call, hBit) == D.Via(call, call, 0, hBit) <==> '-' !in call
  {
    var i := LastIndexOf(call, '-');
    assert '-' in call <==> i < |call|;
  }

  lemma {:induction false} PathParsableIff(frame: seq<byte>, start: nat, n: nat)
    requires start + 7 * n <= |frame|
    ensures R.AllParsable(PathAt(frame, start, n)) <==> AllSeparable(PathAt(frame, start, n))
    decreases n
  {
    hide R.Parsable, Separable, CallAt, SsidAt;
    var path := PathAt(frame, start, n);
    PathFromFields(frame, start, n);
    forall k | 0 <= k < n ensures R.Parsable(path[k]) <==> Separable(path[k].callsign, path[k].ssid) {
      ParsableIff(path[k]);
    }
  }

  lemma {:induction false} PathFromFields(frame: seq<byte>, start: nat, n: nat)
    requires start + 7 * n <= |frame|
    ensures forall k :: 0 <= k < n ==> FromField(PathAt(frame, start, n)[k])
    decreases n
  {
    hide CallAt, SsidAt, SsidText;
    if n > 0 {
      PathFromFields(frame, start + 7, n - 1);
    }
  }

  /** For every frame that converts, the digipeater reads from the packet's header the callsigns, ssids and H-bits
      of all its address fields, exactly when the source callsign has no '>', the destination callsign no ',',
      and every via callsign is separable. A ':' does not matter here: the packet knows where its header ends. */
  lemma HeaderReadsBackIff(frame: seq<byte>, n: nat, sourceInterface: string)
    requires WellFramed(frame, n)
    ensures Converted(frame).Ok? && Converted(frame).value.tnc2AddrLen <= |Converted(frame).value.tnc2|
    ensures var p := PacketOf(Converted(frame).value, sourceInterface);
            D.ParseAddresses(Addresses(p))
            == Some(D.ParsedAddresses(NameAt(frame, 7), NameAt(frame, 0), PathAt(frame, 14, n)))
            <==> '>' !in CallAt(frame, 7) && ',' !in CallAt(frame, 0) && AllSeparable(PathAt(frame, 14, n))
  {
    hide D.Header, PathAt, NameAt, Converted, D.ParseAddresses, R.AllParsable, AllSeparable, WellFramed, CallAt, Finish;
    assert 14 + 7 * n + 2 <= |frame| by { FramedLength(frame, n); }
    HeaderIs(frame, n);
    FinishParts(frame, HeaderAt(frame, n), 14 + 7 * n);
    PathParsableIff(frame, 14, n);
    NameHas(frame, 7, '>');
    NameHas(frame, 0, ',');
    R.ReadsBackIff(NameAt(frame, 7), NameAt(frame, 0), PathAt(frame, 14, n));
  }

  lemma FinishParts(frame: seq<byte>, header: string, addrEnd: nat)
    requires addrEnd + 2 <= |frame|
    ensures var r := Finish(frame, header, addrEnd);
            r.Ok? && r.value.tnc2AddrLen <= |r.value.tnc2| && r.value.tnc2[..r.value.tnc2AddrLen] == header
  {
    hide PayloadText;
    assert (header + ":" + PayloadText(frame[addrEnd + 2..]))[..|header|] == header;
    assert (header + ":")[..|header|] == header;
  }

  lemma FramedLength(frame: seq<byte>, n: nat)
    requires WellFramed(frame, n)
    ensures 14 + 7 * n + 2 <= |frame|
  {
  }

  lemma NameHas(frame: seq<byte>, start: nat, c: char)
    requires start + 7 <= |frame| && c != '-' && !IsDigit(c)
    ensures c in NameAt(frame, start) <==> c in CallAt(frame, start)
  {
    hide CallAt, PrintU8;
    forall d | d in PrintU8(SsidAt(frame, start)) ensures IsDigit(d) {}
  }
}
