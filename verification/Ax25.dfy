/** Binary AX.25 frames and their TNC2 text (src/ax25.rs; address fields as in section 3.12 of
    AX.25 version 2.2). */
module Ax25 {
  import opened Text
  import opened Packets
  import D = Digipeater

  datatype Ax25Error =
    | InvalidSsid | SsidOutOfRange | CallsignLength | CallsignCharacter(c: char) | EmptyCallsign
    | FrameTooShort | TooManyVias | TruncatedVia | TruncatedAfterAddresses

  datatype Result<+T> = Ok(value: T) | Err(error: Ax25Error)

  const MAX_VIA_ADDRS: nat := 8
  const MIN_FRAME_LEN: nat := 16

  function ByteOf(c: char): byte
    requires c as int < 256
  {
    c as int as bv8
  }

  function CharOf(b: byte): char {
    b as int as char
  }

  // ----- One address -----

  predicate IsCallChar(c: char) {
    'A' <= c <= 'Z' || '0' <= c <= '9'
  }

  predicate IsCall(call: string) {
    1 <= |call| <= 6 && forall i :: 0 <= i < |call| ==> IsCallChar(call[i])
  }

  function CallByte(call: string, i: nat): byte
    requires IsCall(call)
  {
    (if i < |call| then ByteOf(call[i]) else 0x20) << 1
  }

  /** The six callsign bytes, shifted left and padded with blanks. */
  function CallBytes(call: string): (bytes: seq<byte>)
    requires IsCall(call)
    ensures |bytes| == 6
  {
    [CallByte(call, 0), CallByte(call, 1), CallByte(call, 2), CallByte(call, 3), CallByte(call, 4), CallByte(call, 5)]
  }

  function SsidByte(ssid: nat, flags: byte): byte
    requires ssid < 16
  {
    flags | ((ssid as bv8) << 1)
  }

  function ReadSsid(callsign: string): (r: Result<nat>)
    ensures r.Ok? ==> r.value < 16
  {
    if '-' !in callsign then Ok(0)
    else
      match ParseU8(After(callsign, '-'))
      case None => Err(InvalidSsid)
      case Some(n) => if n > 15 then Err(SsidOutOfRange) else Ok(n)
  }

  /** The length of text in its UTF-8 encoding. */
  function Utf8Length(s: string): (n: nat)
    ensures n >= |s|
  {
    if s == [] then 0 else Utf8Length(s[..|s| - 1]) + Utf8Width(s[|s| - 1])
  }

  function Utf8Width(c: char): (n: nat)
    ensures 1 <= n <= 4
    ensures (n >= 2 <==> c as int >= 0x80) && (n >= 3 <==> c as int >= 0x800) && (n >= 4 <==> c as int >= 0x1_0000)
  {
    var n := c as int;
    if n < 0x80 then 1 else if n < 0x800 then 2 else if n < 0x1_0000 then 3 else 4
  }

  /** What is wrong with the callsign part: first its length in bytes, then its first bad character. */
  function CallError(call: string): Option<Ax25Error> {
    if call == "" || Utf8Length(call) > 6 then Some(CallsignLength)
    else match FirstBad(call, 0) case None => None case Some(c) => Some(CallsignCharacter(c))
  }

  function FirstBad(call: string, i: nat): (bad: Option<char>)
    requires i <= |call|
    ensures bad.None? <==> forall k :: i <= k < |call| ==> IsCallChar(call[k])
    ensures bad.Some? ==> exists k :: i <= k < |call| && !IsCallChar(call[k]) && bad.value == call[k]
                                      && forall j :: i <= j < k ==> IsCallChar(call[j])
    decreases |call| - i
  {
    if i == |call| then None else if !IsCallChar(call[i]) then Some(call[i]) else FirstBad(call, i + 1)
  }

  /** Nothing is wrong exactly with 1 to 6 letters and digits. */
  lemma NoCallErrorIff(call: string)
    ensures CallError(call).None? <==> IsCall(call)
  {
    if forall i :: 0 <= i < |call| ==> IsCallChar(call[i]) {
      PlainLength(call);
    }
  }

  lemma {:induction false} PlainLength(s: string)
    requires forall i :: 0 <= i < |s| ==> IsCallChar(s[i])
    ensures Utf8Length(s) == |s|
  {
    if s != [] {
      PlainLength(s[..|s| - 1]);
    }
  }

  /** The errors of an encoding, in the order of the tests. */
  lemma EncodingErrors(call: string, number: string, flags: byte)
    requires '-' !in call
    ensures ParseU8(number) == None ==> EncodedAddress(call + ['-'] + number, flags) == Err(InvalidSsid)
    ensures ParseU8(number).Some? && ParseU8(number).value > 15 ==>
              EncodedAddress(call + ['-'] + number, flags) == Err(SsidOutOfRange)
    ensures ParseU8(number).Some? && ParseU8(number).value <= 15 ==>
              EncodedAddress(call + ['-'] + number, flags).Ok? == EncodedAddress(call, flags).Ok?
    ensures call == "" || Utf8Length(call) > 6 ==> EncodedAddress(call, flags) == Err(CallsignLength)
    ensures call != "" && Utf8Length(call) <= 6 ==>
              match FirstBad(call, 0)
              case Some(c) => EncodedAddress(call, flags) == Err(CallsignCharacter(c))
              case None => EncodedAddress(call, flags).Ok?
  {
    hide ParseU8, Utf8Length, FirstBad, CallBytes, SsidByte;
    BeforeConcat(call, '-', number);
    BeforeAbsent(call, '-');
  }

  function EncodedAddress(callsign: string, flags: byte): Result<seq<byte>> {
    match ReadSsid(callsign)
    case Err(e) => Err(e)
    case Ok(ssid) =>
      match CallError(Before(callsign, '-'))
      case Some(e) => Err(e)
      case None =>
        NoCallErrorIff(Before(callsign, '-'));
        Ok(CallBytes(Before(callsign, '-')) + [SsidByte(ssid, flags)])
  }

  method EncodeAx25Address(callsign: string, ssidFlags: byte) returns (r: Result<seq<byte>>)
    ensures r == EncodedAddress(callsign, ssidFlags)
  {
    var callPart, ssid := Before(callsign, '-'), 0;
    if '-' in callsign {
      match ParseU8(After(callsign, '-')) {
        case None => return Err(InvalidSsid);
        case Some(n) =>
          if n > 15 {
            return Err(SsidOutOfRange);
          }
          ssid := n;
      }
    }
    var wrong := CheckCall(callPart);
    if wrong.Some? {
      return Err(wrong.value);
    }
    NoCallErrorIff(callPart);
    var addr := FillAddress(callPart, ssid, ssidFlags);
    return Ok(addr);
  }

  method CheckCall(callPart: string) returns (wrong: Option<Ax25Error>)
    ensures wrong == CallError(callPart)
  {
    if callPart == "" || Utf8Length(callPart) > 6 {
      return Some(CallsignLength);
    }
    for i := 0 to |callPart|
      invariant FirstBad(callPart, i) == FirstBad(callPart, 0)
    {
      if !IsCallChar(callPart[i]) {
        return Some(CallsignCharacter(callPart[i]));
      }
    }
    return None;
  }

  method FillAddress(callPart: string, ssid: nat, ssidFlags: byte) returns (filled: seq<byte>)
    requires IsCall(callPart) && ssid < 16
    ensures filled == CallBytes(callPart) + [SsidByte(ssid, ssidFlags)]
  {
    hide IsCall;
    var addr := new byte[7];
    for i := 0 to 6
      invariant forall k :: 0 <= k < i ==> addr[k] == CallByte(callPart, k)
    {
      addr[i] := CallByte(callPart, i);
    }
    addr[6] := SsidByte(ssid, ssidFlags);
    assert addr[..] == [addr[0], addr[1], addr[2], addr[3], addr[4], addr[5], addr[6]];
    return addr[..];
  }

  /** The characters of the callsign bytes; every blank is dropped, wherever it stands. */
  function CallChars(bytes: seq<byte>): string {
    if bytes == [] then ""
    else
      var ch := CharOf(bytes[|bytes| - 1] >> 1);
      CallChars(bytes[..|bytes| - 1]) + if ch != ' ' then [ch] else ""
  }

  function SsidIn(b: byte): (n: nat)
    ensures n < 16
  {
    ((b >> 1) & 0x0F) as int
  }

  predicate HBit(b: byte) {
    b & 0x80 != 0
  }

  predicate EndBit(b: byte) {
    b & 0x01 != 0
  }

  function SsidText(ssid: u8): string {
    if ssid == 0 then "" else "-" + PrintU8(ssid)
  }

  type AddressField = a: seq<byte> | |a| == 7 witness [0, 0, 0, 0, 0, 0, 0]

  function AddressText(a: AddressField, markHBit: bool): string {
    CallChars(a[..6]) + SsidText(SsidIn(a[6])) + if markHBit && HBit(a[6]) then "*" else ""
  }

  function DecodedAddress(a: AddressField, markHBit: bool): Result<(string, byte)> {
    if CallChars(a[..6]) == "" then Err(EmptyCallsign) else Ok((AddressText(a, markHBit), a[6]))
  }

  method DecodeAx25Address(ax25: AddressField, markHBit: bool) returns (r: Result<(string, byte)>)
    ensures r == DecodedAddress(ax25, markHBit)
  {
    var call := "";
    for i := 0 to 6
      invariant call == CallChars(ax25[..i])
    {
      assert ax25[..i + 1][..i] == ax25[..i];
      var ch := CharOf(ax25[i] >> 1);
      if ch != ' ' {
        call := call + [ch];
      }
    }
    if call == "" {
      return Err(EmptyCallsign);
    }
    var ssidByte := ax25[6];
    var ssid := SsidIn(ssidByte);
    if ssid != 0 {
      call := call + "-";
      call := call + PrintU8(ssid);
    }
    assert call == CallChars(ax25[..6]) + SsidText(ssid) by { AppendSsid(CallChars(ax25[..6]), ssid); }
    assert call + "" == call;
    if markHBit && (ssidByte & 0x80) != 0 {
      call := call + "*";
    }
    return Ok((call, ssidByte));
  }

  lemma AppendSsid(call: string, ssid: u8)
    ensures call + SsidText(ssid) == if ssid == 0 then call else call + "-" + PrintU8(ssid)
  {
    assert call + "" == call;
  }

  // ----- A frame -----

  datatype Tnc2Frame = Tnc2Frame(tnc2: string, tnc2AddrLen: nat, ax25AddrLen: nat, isAprs: bool, uiPid: int)

  /** The address fields from addrEnd on: their texts and where they end. */
  function Vias(frame: seq<byte>, addrEnd: nat, count: nat, last: bool): Result<(seq<string>, nat)>
    decreases MAX_VIA_ADDRS - count, if last then 0 else 1
  {
    if last then Ok(([], addrEnd))
    else if count >= MAX_VIA_ADDRS then Err(TooManyVias)
    else if addrEnd + 7 > |frame| then Err(TruncatedVia)
    else
      match DecodedAddress(frame[addrEnd..addrEnd + 7], true)
      case Err(e) => Err(e)
      case Ok((text, ssidByte)) =>
        match Vias(frame, addrEnd + 7, count + 1, EndBit(ssidByte))
        case Err(e) => Err(e)
        case Ok((texts, end)) => Ok(([text] + texts, end))
  }

  /** The payload as text: up to the first line feed, without carriage returns. */
  function PayloadText(bytes: seq<byte>): string {
    if bytes == [] || bytes[0] == 0x0A then ""
    else (if bytes[0] == 0x0D then "" else [CharOf(bytes[0])]) + PayloadText(bytes[1..])
  }

  function Finish(frame: seq<byte>, header: string, addrEnd: nat): Result<Tnc2Frame> {
    if addrEnd + 2 > |frame| then Err(TruncatedAfterAddresses)
    else if frame[addrEnd] != 0x03 then Ok(Tnc2Frame(header + ":", |header|, addrEnd, false, -1))
    else
      var pid := frame[addrEnd + 1];
      Ok(Tnc2Frame(header + ":" + PayloadText(frame[addrEnd + 2..]), |header|, addrEnd, pid == 0xF0, pid as int))
  }

  function Converted(frame: seq<byte>): Result<Tnc2Frame> {
    if |frame| < MIN_FRAME_LEN then Err(FrameTooShort)
    else
      match DecodedAddress(frame[0..7], false)
      case Err(e) => Err(e)
      case Ok((dst, _)) =>
        match DecodedAddress(frame[7..14], false)
        case Err(e) => Err(e)
        case Ok((src, srcSsid)) =>
          match Vias(frame, 14, 0, EndBit(srcSsid))
          case Err(e) => Err(e)
          case Ok((texts, end)) => Finish(frame, D.Header(src, dst, texts), end)
  }

  /** The packet made of a converted frame. */
  function PacketOf(t: Tnc2Frame, sourceInterface: string): Packet
    requires t.tnc2AddrLen <= |t.tnc2|
  {
    RawPacket(t.tnc2, t.tnc2AddrLen, sourceInterface, t.isAprs)
  }

  method Ax25ToTnc2(frame: seq<byte>) returns (r: Result<Tnc2Frame>)
    ensures r == Converted(frame)
  {
    hide DecodedAddress;
    if |frame| < MIN_FRAME_LEN {
      return Err(FrameTooShort);
    }
    var dst := DecodeAx25Address(frame[0..7], false);
    if dst.Err? {
      return Err(dst.error);
    }
    var src := DecodeAx25Address(frame[7..14], false);
    if src.Err? {
      return Err(src.error);
    }
    r := ViaLoop(frame, src.value.0, dst.value.0, (src.value.1 & 0x01) != 0);
  }

  /** The while loop over the via fields, and what follows it. */
  method ViaLoop(frame: seq<byte>, src: string, dst: string, srcIsLast: bool) returns (r: Result<Tnc2Frame>)
    requires |frame| >= MIN_FRAME_LEN
    ensures r == match Vias(frame, 14, 0, srcIsLast)
                 case Err(e) => Err(e)
                 case Ok((texts, end)) => Finish(frame, D.Header(src, dst, texts), end)
  {
    hide DecodedAddress, Finish;
    var tnc2 := src + ">" + dst;
    var addrEnd, lastAddrFound, viaCount := 14, srcIsLast, 0;
    ghost var texts: seq<string> := [];
    assert [dst] + texts == [dst];
    EmptyPrefix(Vias(frame, 14, 0, srcIsLast));
    while !lastAddrFound
      invariant viaCount <= MAX_VIA_ADDRS && addrEnd == 14 + 7 * viaCount
      invariant tnc2 == D.Header(src, dst, texts)
      invariant Vias(frame, 14, 0, srcIsLast) == WithPrefix(texts, Vias(frame, addrEnd, viaCount, lastAddrFound))
      decreases MAX_VIA_ADDRS - viaCount, if lastAddrFound then 0 else 1
    {
      if viaCount >= MAX_VIA_ADDRS {
        return Err(TooManyVias);
      }
      if addrEnd + 7 > |frame| {
        return Err(TruncatedVia);
      }
      var via := DecodeAx25Address(frame[addrEnd..addrEnd + 7], true);
      if via.Err? {
        return Err(via.error);
      }
      tnc2 := AppendVia(src, dst, texts, tnc2, via.value.0);
      PrefixStep(frame, texts, addrEnd, viaCount, via.value.0, via.value.1);
      texts := texts + [via.value.0];
      addrEnd := addrEnd + 7;
      viaCount := viaCount + 1;
      lastAddrFound := (via.value.1 & 0x01) != 0;
    }
    assert texts + [] == texts;
    r := FinishLoop(frame, tnc2, addrEnd);
  }

  lemma EmptyPrefix(rest: Result<(seq<string>, nat)>)
    ensures WithPrefix([], rest) == rest
  {
    match rest
    case Err(_) =>
    case Ok((texts, _)) => assert [] + texts == texts;
  }

  ghost function WithPrefix(prefix: seq<string>, rest: Result<(seq<string>, nat)>): Result<(seq<string>, nat)> {
    match rest
    case Err(e) => Err(e)
    case Ok((texts, end)) => Ok((prefix + texts, end))
  }

  lemma PrefixStep(frame: seq<byte>, prefix: seq<string>, addrEnd: nat, count: nat, text: string, ssidByte: byte)
    requires count < MAX_VIA_ADDRS && addrEnd + 7 <= |frame|
    requires DecodedAddress(frame[addrEnd..addrEnd + 7], true) == Ok((text, ssidByte))
    ensures WithPrefix(prefix, Vias(frame, addrEnd, count, false))
         == WithPrefix(prefix + [text], Vias(frame, addrEnd + 7, count + 1, EndBit(ssidByte)))
  {
    hide DecodedAddress;
    match Vias(frame, addrEnd + 7, count + 1, EndBit(ssidByte))
    case Err(_) =>
    case Ok((texts, _)) => assert prefix + ([text] + texts) == (prefix + [text]) + texts;
  }

  method AppendVia(src: string, dst: string, ghost texts: seq<string>, tnc2: string, via: string) returns (out: string)
    requires tnc2 == D.Header(src, dst, texts)
    ensures out == D.Header(src, dst, texts + [via])
  {
    JoinSnoc([dst] + texts, via, ',');
    assert [dst] + (texts + [via]) == ([dst] + texts) + [via];
    out := tnc2 + ",";
    out := out + via;
  }

  method FinishLoop(frame: seq<byte>, header: string, addrEnd: nat) returns (r: Result<Tnc2Frame>)
    ensures r == Finish(frame, header, addrEnd)
  {
    if addrEnd + 2 > |frame| {
      return Err(TruncatedAfterAddresses);
    }
    var tnc2 := header;
    var tnc2AddrLen := |tnc2|;
    var control, pid := frame[addrEnd], frame[addrEnd + 1];
    if control != 0x03 {
      tnc2 := tnc2 + ":";
      return Ok(Tnc2Frame(tnc2, tnc2AddrLen, addrEnd, false, -1));
    }
    tnc2 := tnc2 + ":";
    assert tnc2 + "" == tnc2;
    var payloadStart := addrEnd + 2;
    if payloadStart < |frame| {
      var payload := frame[payloadStart..];
      var i := 0;
      while i < |payload| && payload[i] != 0x0A
        invariant i <= |payload|
        invariant header + ":" + PayloadText(payload) == tnc2 + PayloadText(payload[i..])
      {
        assert payload[i..][1..] == payload[i + 1..];
        if payload[i] != 0x0D {
          tnc2 := tnc2 + [CharOf(payload[i])];
        }
        i := i + 1;
      }
      assert tnc2 + PayloadText(payload[i..]) == tnc2;
    } else {
      assert frame[payloadStart..] == [];
    }
    return Ok(Tnc2Frame(tnc2, tnc2AddrLen, addrEnd, pid == 0xF0, pid as int));
  }

  // ----- Which byte strings are accepted -----

  predicate HasCall(frame: seq<byte>, start: nat) {
    start + 7 <= |frame| && CallChars(frame[start..start + 6]) != ""
  }

  /** n via fields from start on, each with a callsign, the end bit on the last byte of the last
      field only. */
  predicate ViaFields(frame: seq<byte>, start: nat, n: nat) {
    && start + 7 * n <= |frame|
    && (forall k :: 0 <= k < n ==> HasCall(frame, start + 7 * k))
    && (forall k :: 0 <= k < n ==> (EndBit(frame[start + 7 * k + 6]) <==> k == n - 1))
  }

  /** Destination, source and n vias, closed by the first end bit, then control and PID. */
  predicate WellFramed(frame: seq<byte>, n: nat) {
    && n <= 8 && 14 + 7 * n + 2 <= |frame|
    && HasCall(frame, 0) && HasCall(frame, 7)
    && (EndBit(frame[13]) <==> n == 0)
    && ViaFields(frame, 14, n)
  }

  lemma ViaFieldsCons(frame: seq<byte>, start: nat, n: nat)
    requires 1 <= n
    ensures ViaFields(frame, start, n) <==>
            HasCall(frame, start) && (EndBit(frame[start + 6]) <==> n == 1) && ViaFields(frame, start + 7, n - 1)
  {
    hide HasCall, EndBit;
    assert HasCall(frame, start) ==> start + 7 <= |frame| by { CallInside(frame, start); }
    if ViaFields(frame, start, n) {
      assert HasCall(frame, start + 7 * 0) && (EndBit(frame[start + 7 * 0 + 6]) <==> n == 1);
      forall k | 0 <= k < n - 1
        ensures HasCall(frame, start + 7 + 7 * k)
        ensures EndBit(frame[start + 7 + 7 * k + 6]) <==> k == n - 2
      {
        assert start + 7 * (k + 1) == start + 7 + 7 * k;
        assert HasCall(frame, start + 7 * (k + 1));
        assert EndBit(frame[start + 7 * (k + 1) + 6]) <==> k + 1 == n - 1;
      }
    }
    if HasCall(frame, start) && (EndBit(frame[start + 6]) <==> n == 1) && ViaFields(frame, start + 7, n - 1) {
      forall k | 0 <= k < n
        ensures HasCall(frame, start + 7 * k)
        ensures EndBit(frame[start + 7 * k + 6]) <==> k == n - 1
      {
        if k > 0 {
          assert start + 7 * k == start + 7 + 7 * (k - 1);
          assert HasCall(frame, start + 7 + 7 * (k - 1));
          assert EndBit(frame[start + 7 + 7 * (k - 1) + 6]) <==> k - 1 == n - 2;
        }
      }
    }
  }

  lemma CallInside(frame: seq<byte>, start: nat)
    ensures HasCall(frame, start) ==> start + 7 <= |frame|
  {
  }

  lemma {:induction false} ViasAccepted(frame: seq<byte>, start: nat, count: nat, n: nat)
    requires 1 <= n && count + n <= MAX_VIA_ADDRS && ViaFields(frame, start, n)
    ensures var r := Vias(frame, start, count, false);
            r.Ok? && r.value.1 == start + 7 * n && |r.value.0| == n
    decreases n
  {
    hide CallChars, EndBit, ViaFields;
    ViaFieldsCons(frame, start, n);
    assert frame[start..start + 7][..6] == frame[start..start + 6];
    if n > 1 {
      ViasAccepted(frame, start + 7, count + 1, n - 1);
    }
  }

  lemma {:induction false} ViasShape(frame: seq<byte>, start: nat, count: nat) returns (n: nat)
    requires Vias(frame, start, count, false).Ok?
    ensures 1 <= n && count + n <= MAX_VIA_ADDRS && ViaFields(frame, start, n)
    ensures Vias(frame, start, count, false).value.1 == start + 7 * n
    decreases MAX_VIA_ADDRS - count
  {
    hide CallChars, EndBit, AddressText, ViaFields;
    assert frame[start..start + 7][..6] == frame[start..start + 6];
    assert frame[start..start + 7][6] == frame[start + 6];
    if EndBit(frame[start + 6]) {
      n := 1;
      NoViaFields(frame, start + 7);
    } else {
      var m := ViasShape(frame, start + 7, count + 1);
      n := m + 1;
    }
    ViaFieldsCons(frame, start, n);
  }

  lemma WellFramedIsUnique(frame: seq<byte>, n: nat, m: nat)
    requires WellFramed(frame, n) && WellFramed(frame, m)
    ensures n == m
  {
    hide HasCall, EndBit;
    assert n > 0 ==> EndBit(frame[14 + 7 * (n - 1) + 6]);
    assert m > 0 ==> EndBit(frame[14 + 7 * (m - 1) + 6]);
  }

  /** A byte string converts exactly when it is well framed for some number of vias, and then
      the address part is the 14 + 7n bytes up to the first end bit. */
  lemma ConvertsIff(frame: seq<byte>)
    ensures Converted(frame).Ok? <==> exists n: nat :: WellFramed(frame, n)
    ensures forall n: nat :: WellFramed(frame, n) && Converted(frame).Ok? ==>
              Converted(frame).value.ax25AddrLen == 14 + 7 * n
  {
    hide Converted, WellFramed;
    if Converted(frame).Ok? {
      var n := AcceptedFrame(frame);
      forall m: nat | WellFramed(frame, m) ensures m == n {
        WellFramedIsUnique(frame, m, n);
      }
    }
    if n: nat :| WellFramed(frame, n) {
      FramedIsAccepted(frame, n);
    }
  }

  lemma FramedIsAccepted(frame: seq<byte>, n: nat)
    requires WellFramed(frame, n)
    ensures Converted(frame).Ok?
  {
    hide CallChars, EndBit, PayloadText, ViaFields;
    assert frame[0..7][..6] == frame[0..6] && frame[7..14][..6] == frame[7..13] && frame[7..14][6] == frame[13];
    if n > 0 {
      ViasAccepted(frame, 14, 0, n);
    }
  }

  lemma AcceptedFrame(frame: seq<byte>) returns (n: nat)
    requires Converted(frame).Ok?
    ensures WellFramed(frame, n) && Converted(frame).value.ax25AddrLen == 14 + 7 * n
  {
    hide CallChars, EndBit, PayloadText, ViaFields;
    assert frame[0..7][..6] == frame[0..6] && frame[7..14][..6] == frame[7..13] && frame[7..14][6] == frame[13];
    if EndBit(frame[13]) {
      n := 0;
      NoViaFields(frame, 14);
    } else {
      n := ViasShape(frame, 14, 0);
    }
  }

  lemma NoViaFields(frame: seq<byte>, start: nat)
    requires |frame| >= start
    ensures ViaFields(frame, start, 0)
  {
  }

  /** Without line feed and carriage return the text is the bytes, code by code. */
  lemma {:induction false} PlainPayload(bytes: seq<byte>)
    requires forall i :: 0 <= i < |bytes| ==> bytes[i] != 0x0A && bytes[i] != 0x0D
    ensures |PayloadText(bytes)| == |bytes|
    ensures forall i :: 0 <= i < |bytes| ==> PayloadText(bytes)[i] as int == bytes[i] as int
  {
    if bytes != [] {
      PlainPayload(bytes[1..]);
      assert PayloadText(bytes)[1..] == PayloadText(bytes[1..]);
    }
  }

  /** A line feed ends the text. */
  lemma {:induction false} PayloadEndsAtLineFeed(a: seq<byte>, rest: seq<byte>)
    requires 0x0A !in a
    ensures PayloadText(a + [0x0A] + rest) == PayloadText(a)
  {
    hide CharOf;
    var whole := a + [0x0A] + rest;
    if a != [] {
      assert a[0] in a && forall b :: b in a[1..] ==> b in a;
      PayloadEndsAtLineFeed(a[1..], rest);
      assert whole[0] == a[0] && whole[1..] == a[1..] + [0x0A] + rest;
    } else {
      assert whole[0] == 0x0A;
    }
  }

  /** A carriage return leaves no trace. */
  lemma {:induction false} PayloadSkipsReturn(a: seq<byte>, b: seq<byte>)
    requires 0x0A !in a
    ensures PayloadText(a + [0x0D] + b) == PayloadText(a + b)
  {
    hide CharOf;
    var whole := a + [0x0D] + b;
    if a != [] {
      assert a[0] in a && forall x :: x in a[1..] ==> x in a;
      PayloadSkipsReturn(a[1..], b);
      assert whole[0] == a[0] && whole[1..] == a[1..] + [0x0D] + b;
      assert (a + b)[0] == a[0] && (a + b)[1..] == a[1..] + b;
    } else {
      assert whole[0] == 0x0D && whole[1..] == b && a + b == b;
    }
  }

  /** The flag bits of an address field: the top bit marks a used via, the lowest the last field. */
  lemma FlagMeaning(b: byte)
    ensures HBit(b) <==> b >= 0x80
    ensures EndBit(b) <==> b % 2 == 1
  {
  }

  /** A callsign character stands in the upper seven bits, and blanks fill the field up. */
  lemma CallByteMeaning(call: string, i: nat)
    requires IsCall(call)
    ensures CallByte(call, i) % 2 == 0
    ensures CallByte(call, i) / 2 == if i < |call| then ByteOf(call[i]) else 0x20
  {
    if i < |call| {
      PlainCode(call[i]);
      Doubled(ByteOf(call[i]));
    }
  }

  lemma PlainCode(c: char)
    requires IsCallChar(c)
    ensures ByteOf(c) < 0x80
  {
  }

  lemma Doubled(b: byte)
    requires b < 0x80
    ensures (b << 1) % 2 == 0 && (b << 1) / 2 == b
  {
  }

  // ----- Which error -----

  /** Two addresses and k vias with callsigns and without end bit. */
  predicate OpenAfter(frame: seq<byte>, k: nat) {
    && HasCall(frame, 0) && HasCall(frame, 7) && !EndBit(frame[13])
    && OpenVias(frame, 14, k)
  }

  predicate OpenVias(frame: seq<byte>, start: nat, k: nat)
    decreases k
  {
    k == 0 || (HasCall(frame, start) && !EndBit(frame[start + 6]) && OpenVias(frame, start + 7, k - 1))
  }

  /** Every error of a conversion, told from the bytes. */
  lemma ConversionErrors(frame: seq<byte>, k: nat)
    ensures |frame| < 16 ==> Converted(frame) == Err(FrameTooShort)
    ensures |frame| >= 16 && !(HasCall(frame, 0) && HasCall(frame, 7)) ==> Converted(frame) == Err(EmptyCallsign)
    ensures |frame| >= 16 && k <= 8 && OpenAfter(frame, k) ==>
              && (k == 8 ==> Converted(frame) == Err(TooManyVias))
              && (k < 8 && 14 + 7 * k + 7 > |frame| ==> Converted(frame) == Err(TruncatedVia))
              && (k < 8 && 14 + 7 * k + 7 <= |frame| && !HasCall(frame, 14 + 7 * k) ==>
                    Converted(frame) == Err(EmptyCallsign))
              && (k < 8 && HasCall(frame, 14 + 7 * k) && EndBit(frame[14 + 7 * k + 6]) && 14 + 7 * k + 9 > |frame| ==>
                    Converted(frame) == Err(TruncatedAfterAddresses))
  {
    hide CallChars, EndBit, AddressText, OpenVias, Finish, D.Header;
    if |frame| >= 16 {
      assert frame[0..7][..6] == frame[0..6] && frame[7..14][..6] == frame[7..13] && frame[7..14][6] == frame[13];
      if k <= 8 && OpenAfter(frame, k) {
        ViaErrors(frame, 14, 0, k);
        FinishError(frame);
      }
    }
  }

  lemma FinishError(frame: seq<byte>)
    ensures forall header, addrEnd: nat :: addrEnd + 2 > |frame| ==>
              Finish(frame, header, addrEnd) == Err(TruncatedAfterAddresses)
  {
  }

  lemma {:induction false} ViaErrors(frame: seq<byte>, start: nat, count: nat, k: nat)
    requires OpenVias(frame, start, k) && count + k <= 8
    ensures var r, at := Vias(frame, start, count, false), start + 7 * k;
            && (count + k == 8 ==> r == Err(TooManyVias))
            && (count + k < 8 && at + 7 > |frame| ==> r == Err(TruncatedVia))
            && (count + k < 8 && at + 7 <= |frame| && !HasCall(frame, at) ==> r == Err(EmptyCallsign))
            && (count + k < 8 && HasCall(frame, at) && EndBit(frame[at + 6]) ==> r.Ok? && r.value.1 == at + 7)
    decreases k
  {
    hide CallChars, EndBit, AddressText;
    if start + 7 <= |frame| {
      assert frame[start..start + 7][..6] == frame[start..start + 6] && frame[start..start + 7][6] == frame[start + 6];
    }
    if k > 0 {
      ViaErrors(frame, start + 7, count + 1, k - 1);
    }
  }

  /** The payload text is one line. */
  lemma {:induction false} PayloadIsOneLine(bytes: seq<byte>)
    ensures '\n' !in PayloadText(bytes) && '\r' !in PayloadText(bytes)
  {
    if bytes != [] && bytes[0] != 0x0A {
      PayloadIsOneLine(bytes[1..]);
    }
  }
}
