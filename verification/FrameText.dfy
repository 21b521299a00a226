/** Binary frames and text headers agree (src/ax25.rs, src/interface/serial.rs): what conversion
    makes of well-formed addresses, and what a digipeater then reads. */
module FrameText {
  import opened Text
  import opened Packets
  import opened Ax25
  import R = RelayEdit
  import K = Kiss

  /** A callsign of 1 to 6 characters A-Z and 0-9, an ssid of 0 to 15, and the flag bits that
      share a byte with the ssid. */
  datatype Address = Address(call: string, ssid: nat, flags: byte)

  predicate Canonical(a: Address) {
    IsCall(a.call) && a.ssid < 16 && a.flags & 0x1E == 0
  }

  function FieldOf(a: Address): AddressField
    requires Canonical(a)
  {
    CallBytes(a.call) + [SsidByte(a.ssid, a.flags)]
  }

  function PlainText(a: Address): string
    requires Canonical(a)
  {
    a.call + SsidText(a.ssid)
  }

  // ----- One address -----

  lemma ShiftBack(c: char)
    requires IsCallChar(c) || c == ' '
    ensures CharOf((ByteOf(c) << 1) >> 1) == c
  {
    assert ByteOf(c) < 128;
    ShiftUpDown(ByteOf(c));
  }

  lemma ShiftUpDown(b: byte)
    requires b < 128
    ensures (b << 1) >> 1 == b
  {
  }

  lemma CallByteBack(call: string, i: nat)
    requires IsCall(call) && i < 6
    ensures CharOf(CallByte(call, i) >> 1) == if i < |call| then call[i] else ' '
  {
    if i < |call| {
      ShiftBack(call[i]);
    } else {
      ShiftBack(' ');
    }
  }

  lemma {:induction false} CallCharsBack(call: string, n: nat)
    requires IsCall(call) && n <= 6
    ensures CallChars(CallBytes(call)[..n]) == call[..if n < |call| then n else |call|]
    decreases n
  {
    hide IsCall, CallByte, CallChars, IsCallChar;
    var bytes := CallBytes(call);
    if n == 0 {
      assert bytes[..0] == [];
      CallCharsEmpty();
    } else {
      CallCharsBack(call, n - 1);
      CallByteBack(call, n - 1);
      assert bytes[..n] == bytes[..n - 1] + [CallByte(call, n - 1)];
      CallCharsSnoc(bytes[..n - 1], CallByte(call, n - 1));
      if n - 1 < |call| {
        CallCharAt(call, n - 1);
        CallCharNotBlank(call[n - 1]);
      }
    }
  }

  lemma CallCharsEmpty()
    ensures CallChars([]) == ""
  {
  }

  lemma CallCharsSnoc(bytes: seq<byte>, b: byte)
    ensures var ch := CharOf(b >> 1);
            CallChars(bytes + [b]) == CallChars(bytes) + if ch != ' ' then [ch] else ""
  {
    hide CharOf;
    assert (bytes + [b])[..|bytes|] == bytes;
  }

  lemma CallCharNotBlank(c: char)
    requires IsCallChar(c)
    ensures c != ' '
  {
  }

  lemma CallCharAt(call: string, i: nat)
    requires IsCall(call) && i < |call|
    ensures IsCallChar(call[i])
  {
  }

  lemma FlagBits(ssid: nat, flags: byte)
    requires ssid < 16
    ensures SsidIn(SsidByte(ssid, flags)) == ssid <==> (flags >> 1) & 0x0F & !(ssid as bv8) == 0
    ensures HBit(SsidByte(ssid, flags)) == HBit(flags) && EndBit(SsidByte(ssid, flags)) == EndBit(flags)
  {
    FlagBitsOf(ssid as bv8, flags);
  }

  lemma FlagBitsOf(s: byte, flags: byte)
    requires s < 16
    ensures ((flags | (s << 1)) >> 1) & 0x0F == s <==> (flags >> 1) & 0x0F & !s == 0
    ensures (flags | (s << 1)) & 0x80 == flags & 0x80 && (flags | (s << 1)) & 0x01 == flags & 0x01
  {
  }

  lemma NoSsidFlags(flags: byte, s: byte)
    requires flags & 0x1E == 0
    ensures (flags >> 1) & 0x0F & !s == 0
  {
  }

  /** A canonical address field decodes to its text, with '*' for a set H-bit when asked. */
  lemma FieldDecodes(a: Address, markHBit: bool)
    requires Canonical(a)
    ensures DecodedAddress(FieldOf(a), markHBit)
         == Ok((PlainText(a) + (if markHBit && HBit(a.flags) then "*" else ""), SsidByte(a.ssid, a.flags)))
  {
    hide CallBytes, SsidByte, HBit, SsidIn;
    CallCharsBack(a.call, 6);
    assert FieldOf(a)[..6] == CallBytes(a.call) && CallBytes(a.call)[..6] == CallBytes(a.call);
    assert a.call[..|a.call|] == a.call;
    FlagBits(a.ssid, a.flags);
    NoSsidFlags(a.flags, a.ssid as bv8);
  }

  /** Encoding a callsign text and decoding the field again: the ssid survives exactly for the
      flags that leave the ssid bits alone. */
  lemma EncodeThenDecode(callsign: string, flags: byte)
    requires EncodedAddress(callsign, flags).Ok?
    ensures var field := EncodedAddress(callsign, flags).value;
            var ssid := ReadSsid(callsign).value;
            && |field| == 7
            && CallChars(field[..6]) == Before(callsign, '-')
            && (SsidIn(field[6]) == ssid <==> (flags >> 1) & 0x0F & !(ssid as bv8) == 0)
  {
    hide SsidByte, SsidIn;
    var call, ssid := Before(callsign, '-'), ReadSsid(callsign).value;
    var field := EncodedAddress(callsign, flags).value;
    FlagBits(ssid, flags);
    CallCharsBack(call, 6);
    assert field[..6] == CallBytes(call)[..6];
    assert call[..|call|] == call;
  }

  /** The text of a canonical address is a callsign that encodes to the address. */
  lemma TextEncodes(a: Address)
    requires Canonical(a)
    ensures EncodedAddress(PlainText(a), a.flags) == Ok(FieldOf(a))
  {
    hide PlainText, ReadSsid, CallError, SsidByte;
    PlainTextParts(a);
    NoCallErrorIff(a.call);
  }

  lemma PlainTextParts(a: Address)
    requires Canonical(a)
    ensures ReadSsid(PlainText(a)) == Ok(a.ssid) && Before(PlainText(a), '-') == a.call
  {
    CallHasNo(a.call, '-');
    if a.ssid == 0 {
      assert PlainText(a) == a.call;
      BeforeAbsent(a.call, '-');
    } else {
      assert PlainText(a) == a.call + ['-'] + PrintU8(a.ssid);
      BeforeConcat(a.call, '-', PrintU8(a.ssid));
      ParsePrintU8(a.ssid);
    }
  }

  lemma CallHasNo(call: string, c: char)
    requires IsCall(call) && !IsCallChar(c)
    ensures c !in call
  {
  }

  // ----- Whole frames -----

  predicate AllCanonical(vias: seq<Address>) {
    forall i :: 0 <= i < |vias| ==> Canonical(vias[i])
  }

  function Fields(vias: seq<Address>): (bytes: seq<byte>)
    requires AllCanonical(vias)
    ensures |bytes| == 7 * |vias|
  {
    if vias == [] then [] else FieldOf(vias[0]) + Fields(vias[1..])
  }

  /** The addresses of a frame, its control and PID bytes and its payload. */
  datatype Frame = Frame(dst: Address, src: Address, vias: seq<Address>, control: byte, pid: byte, payload: seq<byte>)

  predicate LastOnly(vias: seq<Address>) {
    forall i :: 0 <= i < |vias| ==> (EndBit(vias[i].flags) <==> i == |vias| - 1)
  }

  /** At most eight vias, and the end bit on the last address only. */
  predicate Wellformed(f: Frame) {
    && Canonical(f.dst) && Canonical(f.src) && AllCanonical(f.vias) && |f.vias| <= 8
    && (EndBit(f.src.flags) <==> f.vias == []) && LastOnly(f.vias)
  }

  function AddressBytes(f: Frame): seq<byte>
    requires Wellformed(f)
  {
    FieldOf(f.dst) + FieldOf(f.src) + Fields(f.vias)
  }

  function Assemble(f: Frame): seq<byte>
    requires Wellformed(f)
  {
    AddressBytes(f) + [f.control, f.pid] + f.payload
  }

  /** The path entry a digipeater should read for a via address. */
  function ViaFor(a: Address): D.Via
    requires Canonical(a)
  {
    D.Via(PlainText(a), a.call, a.ssid, HBit(a.flags))
  }

  function PathFor(vias: seq<Address>): (path: seq<D.Via>)
    requires AllCanonical(vias)
    ensures |path| == |vias|
  {
    if vias == [] then [] else [ViaFor(vias[0])] + PathFor(vias[1..])
  }

  function HeaderFor(f: Frame): string
    requires Wellformed(f)
  {
    D.Header(PlainText(f.src), PlainText(f.dst), D.PrintVias(PathFor(f.vias)))
  }

  lemma ViaIsPrintable(a: Address)
    requires Canonical(a)
    ensures R.Printable(ViaFor(a))
  {
    hide IsCall, ParseU8, PrintU8;
    PlainTextHasNo(a, ',');
    PlainTextHasNo(a, ':');
    PlainTextHasNo(a, '*');
    PlainTextSplits(a);
  }

  lemma PlainTextSplits(a: Address)
    requires Canonical(a)
    ensures D.ViaOf(PlainText(a), HBit(a.flags)) == ViaFor(a)
  {
    hide IsCall, ParseU8, HBit;
    CallHasNo(a.call, '-');
    if a.ssid == 0 {
      assert PlainText(a) == a.call;
    } else {
      var digits := PrintU8(a.ssid);
      assert PlainText(a) == a.call + ['-'] + digits;
      assert '-' !in digits by {
        forall c | c in digits ensures IsDigit(c) {}
      }
      LastIndexOfConcat(a.call, '-', digits);
      ParsePrintU8(a.ssid);
    }
  }

  lemma {:induction false} PathIsPrintable(vias: seq<Address>)
    requires AllCanonical(vias)
    ensures R.AllPrintable(PathFor(vias))
    decreases |vias|
  {
    hide Canonical, R.Printable;
    if vias != [] {
      ViaIsPrintable(vias[0]);
      PathIsPrintable(vias[1..]);
    }
  }

  lemma {:induction false} ViasDecode(frame: seq<byte>, start: nat, count: nat, vias: seq<Address>)
    requires AllCanonical(vias) && LastOnly(vias) && vias != [] && count + |vias| <= MAX_VIA_ADDRS
    requires start + 7 * |vias| <= |frame| && frame[start..start + 7 * |vias|] == Fields(vias)
    ensures Vias(frame, start, count, false) == Ok((D.PrintVias(PathFor(vias)), start + 7 * |vias|))
    decreases |vias|
  {
    hide Canonical, FieldOf, DecodedAddress, ViaFor, EndBit;
    var field := frame[start..start + 7];
    assert field == FieldOf(vias[0]) by {
      assert field == frame[start..start + 7 * |vias|][..7];
    }
    FieldDecodes(vias[0], true);
    PrintedVia(vias[0]);
    ViaEnd(vias[0]);
    assert D.PrintVias(PathFor(vias)) == [D.PrintVia(ViaFor(vias[0]))] + D.PrintVias(PathFor(vias[1..]));
    if |vias| > 1 {
      assert frame[start + 7..start + 7 + 7 * |vias[1..]|] == Fields(vias[1..]) by {
        assert frame[start..start + 7 * |vias|][7..] == frame[start + 7..start + 7 + 7 * |vias[1..]|];
      }
      ViasDecode(frame, start + 7, count + 1, vias[1..]);
    } else {
      assert D.PrintVias(PathFor(vias[1..])) == [];
    }
  }

  lemma PrintedVia(a: Address)
    requires Canonical(a)
    ensures D.PrintVia(ViaFor(a)) == PlainText(a) + if HBit(a.flags) then "*" else ""
  {
  }

  lemma ViaEnd(a: Address)
    requires Canonical(a)
    ensures EndBit(SsidByte(a.ssid, a.flags)) == EndBit(a.flags)
  {
    FlagBits(a.ssid, a.flags);
  }

  /** Any well-formed frame converts: the text header is source, destination and vias with their
      H-bits as '*', both address lengths are right, and the rest is as control and PID say. */
  lemma FrameConverts(f: Frame)
    requires Wellformed(f)
    ensures Converted(Assemble(f)) ==
            Ok(if f.control == 0x03
               then Tnc2Frame(HeaderFor(f) + ":" + PayloadText(f.payload), |HeaderFor(f)|, 14 + 7 * |f.vias|,
                              f.pid == 0xF0, f.pid as int)
               else Tnc2Frame(HeaderFor(f) + ":", |HeaderFor(f)|, 14 + 7 * |f.vias|, false, -1))
  {
    hide Canonical, FieldOf, DecodedAddress, LastOnly, PayloadText, EndBit, SsidByte, D.Header, PlainText, PathFor,
         D.PrintVias;
    var frame, n := Assemble(f), |f.vias|;
    assert frame[0..7] == FieldOf(f.dst) && frame[7..14] == FieldOf(f.src);
    assert frame[14..14 + 7 * n] == Fields(f.vias);
    FieldDecodes(f.dst, false);
    FieldDecodes(f.src, false);
    assert PlainText(f.dst) + "" == PlainText(f.dst) && PlainText(f.src) + "" == PlainText(f.src);
    ViaEnd(f.src);
    if n > 0 {
      ViasDecode(frame, 14, 0, f.vias);
    } else {
      NoVias();
    }
    assert frame[14 + 7 * n] == f.control && frame[14 + 7 * n + 1] == f.pid;
    assert frame[14 + 7 * n + 2..] == f.payload;
  }

  /** In the characters themselves: a UI frame whose payload holds neither line feed nor carriage return becomes
      its header, a ':' and one character for each payload byte. */
  lemma PlainFrameConverts(f: Frame)
    requires Wellformed(f) && f.control == 0x03
    requires forall i :: 0 <= i < |f.payload| ==> f.payload[i] != 0x0A && f.payload[i] != 0x0D
    ensures Converted(Assemble(f)).Ok?
    ensures var tnc2, start := Converted(Assemble(f)).value.tnc2, |HeaderFor(f)| + 1;
            && |tnc2| == start + |f.payload| && tnc2[..start] == HeaderFor(f) + ":"
            && forall i :: 0 <= i < |f.payload| ==> tnc2[start + i] as int == f.payload[i] as int
  {
    hide Wellformed, HeaderFor, Assemble, PayloadText, Converted;
    FrameConverts(f);
    PlainPayload(f.payload);
    var header, text := HeaderFor(f) + ":", PayloadText(f.payload);
    assert (header + text)[..|header|] == header;
    assert forall i :: 0 <= i < |text| ==> (header + text)[|header| + i] == text[i];
  }

  lemma NoVias()
    ensures D.PrintVias(PathFor([])) == []
  {
  }

  lemma PlainTextHasNo(a: Address, c: char)
    requires Canonical(a) && !IsCallChar(c) && c != '-'
    ensures c !in PlainText(a)
  {
    CallHasNo(a.call, c);
    if a.ssid != 0 {
      forall d | d in PrintU8(a.ssid) ensures IsDigit(d) {}
    }
  }

  /** The digipeater reads from the header exactly the addresses of the frame: every callsign,
      ssid and H-bit. */
  lemma HeaderReadsBack(f: Frame)
    requires Wellformed(f)
    ensures D.ParseAddresses(HeaderFor(f))
         == Some(D.ParsedAddresses(PlainText(f.src), PlainText(f.dst), PathFor(f.vias)))
    ensures ':' !in HeaderFor(f)
  {
    hide Canonical, R.Printable, PlainText;
    PathIsPrintable(f.vias);
    PlainTextHasNo(f.src, '>');
    PlainTextHasNo(f.src, ':');
    PlainTextHasNo(f.dst, ',');
    PlainTextHasNo(f.dst, ':');
    R.PrintableIsParsable(PathFor(f.vias));
    R.ParseHeader(PlainText(f.src), PlainText(f.dst), PathFor(f.vias));
    R.HeaderColons(PlainText(f.src), PlainText(f.dst), PathFor(f.vias));
  }

  // ----- Callsigns from arbitrary bytes -----

  lemma {:induction false} CallCharsHas(bytes: seq<byte>, c: char)
    requires c != ' '
    ensures c in CallChars(bytes) <==> exists i :: 0 <= i < |bytes| && CharOf(bytes[i] >> 1) == c
    decreases |bytes|
  {
    hide CharOf;
    if bytes != [] {
      var n := |bytes| - 1;
      var short := bytes[..n];
      CallCharsHas(short, c);
      assert CharOf(bytes[n] >> 1) == c ==> c in CallChars(bytes);
      hide CallChars;
      if i :| 0 <= i < n && CharOf(short[i] >> 1) == c {
        assert CharOf(bytes[i] >> 1) == c;
      }
      if i :| 0 <= i < |bytes| && CharOf(bytes[i] >> 1) == c {
        assert i < n ==> CharOf(short[i] >> 1) == c;
      }
    }
  }

  /** Byte p of the address fields carries the character ':'. */
  predicate ColonAt(frame: seq<byte>, p: nat) {
    p < |frame| && p % 7 < 6 && CharOf(frame[p] >> 1) == ':'
  }

  predicate ColonWithin(frame: seq<byte>, from: nat, to: nat) {
    exists p: nat :: from <= p < to && ColonAt(frame, p)
  }

  lemma FieldColon(frame: seq<byte>, start: nat, markHBit: bool)
    requires start % 7 == 0 && start + 7 <= |frame|
    ensures ':' in AddressText(frame[start..start + 7], markHBit) <==> ColonWithin(frame, start, start + 7)
  {
    hide CharOf;
    var field := frame[start..start + 7];
    CallCharsHas(field[..6], ':');
    forall d | d in PrintU8(SsidIn(field[6])) ensures IsDigit(d) {}
    if i :| 0 <= i < 6 && CharOf(field[..6][i] >> 1) == ':' {
      assert ColonAt(frame, start + i);
    }
    if p: nat :| start <= p < start + 7 && ColonAt(frame, p) {
      assert p - start < 6;
      assert field[..6][p - start] == frame[p];
    }
  }

  lemma ColonSplit(frame: seq<byte>, a: nat, b: nat, c: nat)
    requires a <= b <= c
    ensures ColonWithin(frame, a, c) <==> ColonWithin(frame, a, b) || ColonWithin(frame, b, c)
  {
  }

  lemma {:induction false} ViasColon(frame: seq<byte>, start: nat, count: nat, last: bool)
    requires start % 7 == 0 && Vias(frame, start, count, last).Ok?
    ensures var (texts, end) := Vias(frame, start, count, last).value;
            && start <= end
            && ((exists i :: 0 <= i < |texts| && ':' in texts[i]) <==> ColonWithin(frame, start, end))
    decreases MAX_VIA_ADDRS - count, if last then 0 else 1
  {
    hide AddressText, ColonWithin;
    if last {
      assert !ColonWithin(frame, start, start) by { NoColonNowhere(frame, start); }
    } else {
      var a := DecodedAddress(frame[start..start + 7], true).value;
      ViasColon(frame, start + 7, count + 1, EndBit(a.1));
      FieldColon(frame, start, true);
      var (rest, end) := Vias(frame, start + 7, count + 1, EndBit(a.1)).value;
      ColonSplit(frame, start, start + 7, end);
      var texts := [a.0] + rest;
      assert texts[0] == a.0 && forall i :: 0 <= i < |rest| ==> texts[i + 1] == rest[i];
    }
  }

  lemma NoColonNowhere(frame: seq<byte>, start: nat)
    ensures !ColonWithin(frame, start, start)
  {
  }

  /** For arbitrary bytes the text header may hold a ':' of its own, and the packet's header then ends
      later than its first ':' - exactly when some callsign byte carries one. */
  lemma HeaderColonIff(frame: seq<byte>)
    requires Converted(frame).Ok?
    ensures var t := Converted(frame).value;
            && t.tnc2AddrLen < |t.tnc2| && t.tnc2[t.tnc2AddrLen] == ':'
            && (':' in t.tnc2[..t.tnc2AddrLen] <==> ColonWithin(frame, 0, t.ax25AddrLen))
  {
    hide AddressText, ColonWithin, PayloadText;
    var dst, src := DecodedAddress(frame[0..7], false).value, DecodedAddress(frame[7..14], false).value;
    var (texts, end) := Vias(frame, 14, 0, EndBit(src.1)).value;
    var t := Converted(frame).value;
    assert t.tnc2[..t.tnc2AddrLen] == D.Header(src.0, dst.0, texts);
    FieldColon(frame, 0, false);
    FieldColon(frame, 7, false);
    ViasColon(frame, 14, 0, EndBit(src.1));
    ColonSplit(frame, 0, 7, end);
    ColonSplit(frame, 7, 14, end);
    HeaderHas(src.0, dst.0, texts);
  }

  lemma HeaderHas(source: string, dest: string, fields: seq<string>)
    ensures ':' in D.Header(source, dest, fields) <==>
            ':' in source || ':' in dest || exists i :: 0 <= i < |fields| && ':' in fields[i]
  {
    var parts := [dest] + fields;
    JoinChars(parts, ',', ':');
    assert parts[0] == dest && forall i :: 0 <= i < |fields| ==> parts[i + 1] == fields[i];
    if i :| 0 <= i < |fields| && ':' in fields[i] {
      assert parts[i + 1] in parts;
    }
  }

  // ----- From the air to the packet -----

  /** A well-formed APRS frame sent as plain KISS reaches the digipeater of the receiver with
      the addresses it was assembled from, and as the packet its text would make. */
  lemma OverTheAir(f: Frame, sourceInterface: string)
    requires Wellformed(f) && f.control == 0x03 && f.pid == 0xF0
    requires 1 + |Assemble(f)| <= K.MAX_FRAME_LEN
    ensures var out := K.Outgoing(Assemble(f), 0x00, K.Plain);
            K.Run(K.START, K.Wire(out)).frames == [K.KissFrame(0x00, Assemble(f))]
    ensures var r := Converted(Assemble(f));
            && r.Ok? && r.value.tnc2AddrLen <= |r.value.tnc2|
            && var p := PacketOf(r.value, sourceInterface);
               && p == NewPacket(HeaderFor(f) + ":" + PayloadText(f.payload), sourceInterface, true)
               && D.ParseAddresses(Addresses(p))
                  == Some(D.ParsedAddresses(PlainText(f.src), PlainText(f.dst), PathFor(f.vias)))
               && Payload(p) == PayloadText(f.payload)
  {
    hide Wellformed, Assemble, HeaderFor, PayloadText, K.Run, K.Wire;
    var out := K.Outgoing(Assemble(f), 0x00, K.Plain);
    assert K.BodyOf(out) == Assemble(f);
    K.ShortFramesFit(out);
    K.RoundTripIff(out);
    FrameConverts(f);
    HeaderReadsBack(f);
    NewPacketParts(HeaderFor(f), PayloadText(f.payload), sourceInterface, true);
    IndexOfConcat(HeaderFor(f), ':', PayloadText(f.payload));
  }
}
