/** KISS framing (src/kiss.rs; Asynchronous Frame Format and Transparency in the KISS TNC
    specification): the encoder, the streaming decoder, and how they fit together. */
module Kiss {
  import opened Crc
  import opened Text

  const FEND: byte := 0xC0
  const FESC: byte := 0xDB
  const TFEND: byte := 0xDC
  const TFESC: byte := 0xDD

  const MAX_FRAME_LEN: nat := 2000

  datatype KissVariant = Plain | Smack | FlexNet | BpqCrc

  datatype KissFrame = KissFrame(cmdByte: byte, data: seq<byte>)

  // ----- Encoding -----

  predicate Special(b: byte) {
    b == FEND || b == FESC
  }

  function EscapeByte(b: byte): seq<byte> {
    if b == FEND then [FESC, TFEND] else if b == FESC then [FESC, TFESC] else [b]
  }

  function Escape(data: seq<byte>): seq<byte> {
    if data == [] then [] else Escape(data[..|data| - 1]) + EscapeByte(data[|data| - 1])
  }

  function XorAll(data: seq<byte>): byte {
    if data == [] then 0 else XorAll(data[..|data| - 1]) ^ data[|data| - 1]
  }

  /** The check bytes of a variant. */
  function Checksum(data: seq<byte>, cmdByte: byte, variant: KissVariant): seq<byte> {
    match variant
    case Plain => []
    case Smack => var crc := Lfsr(POLY_CRC16, 0, [cmdByte] + data); [LowByte(crc), HighByte(crc)]
    case FlexNet => var crc := Flex([cmdByte] + data); [HighByte(crc), LowByte(crc)]
    case BpqCrc => [XorAll(data)]
  }

  /** What follows the command byte, before escaping. */
  function Body(data: seq<byte>, cmdByte: byte, variant: KissVariant): seq<byte> {
    data + Checksum(data, cmdByte, variant)
  }

  function Encoded(data: seq<byte>, cmdByte: byte, variant: KissVariant): seq<byte> {
    [FEND, cmdByte] + Escape(Body(data, cmdByte, variant)) + [FEND]
  }

  lemma {:induction false} EscapeConcat(a: seq<byte>, b: seq<byte>)
    ensures Escape(a + b) == Escape(a) + Escape(b)
    decreases |b|
  {
    hide EscapeByte;
    if b == [] {
      assert a + b == a;
    } else {
      var n := |b| - 1;
      EscapeConcat(a, b[..n]);
      assert (a + b)[..|a + b| - 1] == a + b[..n];
    }
  }

  lemma EscapeOne(b: byte)
    ensures Escape([b]) == EscapeByte(b)
  {
    assert [b][..0] == [];
  }

  /** The escapes of the KISS specification, byte by byte. */
  lemma EscapesAre(b: byte)
    ensures Escape([0xC0]) == [0xDB, 0xDC] && Escape([0xDB]) == [0xDB, 0xDD]
    ensures b != 0xC0 && b != 0xDB ==> Escape([b]) == [b]
    ensures Escape([]) == []
  {
    EscapeOne(0xC0);
    EscapeOne(0xDB);
    EscapeOne(b);
  }

  /** One wrong byte changes the XOR checksum. */
  lemma {:induction false} XorDetectsOneByte(before: seq<byte>, a: byte, b: byte, tail: seq<byte>)
    requires a != b
    ensures XorAll(before + [a] + tail) != XorAll(before + [b] + tail)
    decreases |tail|
  {
    var p, q := before + [a] + tail, before + [b] + tail;
    if tail == [] {
      assert p[..|before|] == before == q[..|before|] && p[|before|] == a && q[|before|] == b;
      XorDiffers(XorAll(before), XorAll(before), a, b);
    } else {
      var n := |tail| - 1;
      XorDetectsOneByte(before, a, b, tail[..n]);
      assert p[..|p| - 1] == before + [a] + tail[..n] && q[..|q| - 1] == before + [b] + tail[..n];
      assert p[|p| - 1] == tail[n] == q[|q| - 1];
      XorDiffers(XorAll(before + [a] + tail[..n]), XorAll(before + [b] + tail[..n]), tail[n], tail[n]);
    }
  }

  lemma XorDiffers(x: byte, y: byte, a: byte, b: byte)
    ensures x == y && a != b ==> x ^ a != y ^ b
    ensures x != y && a == b ==> x ^ a != y ^ b
  {
  }

  /** Appends one escaped byte to the frame. */
  method KissEscapeByte(out: seq<byte>, b: byte) returns (res: seq<byte>)
    ensures res == out + EscapeByte(b)
  {
    if b == FEND {
      res := out + [FESC];
      res := res + [TFEND];
    } else if b == FESC {
      res := out + [FESC];
      res := res + [TFESC];
    } else {
      res := out + [b];
    }
  }

  method KissEncode(data: seq<byte>, cmdByte: byte, variant: KissVariant) returns (frame: seq<byte>)
    ensures frame == Encoded(data, cmdByte, variant)
  {
    hide EscapeByte, Checksum;
    frame := [FEND];
    frame := frame + [cmdByte];
    for i := 0 to |data|
      invariant frame == [FEND, cmdByte] + Escape(data[..i])
    {
      assert data[..i + 1][..i] == data[..i];
      frame := KissEscapeByte(frame, data[i]);
    }
    assert data[..|data|] == data;
    EscapeConcat(data, Checksum(data, cmdByte, variant));
    frame := AppendChecksum(frame, data, cmdByte, variant);
    frame := frame + [FEND];
  }

  method AppendChecksum(frame: seq<byte>, data: seq<byte>, cmdByte: byte, variant: KissVariant)
    returns (res: seq<byte>)
    ensures res == frame + Escape(Checksum(data, cmdByte, variant))
  {
    hide Lfsr, Flex, EscapeByte, LowByte, HighByte, XorAll;
    res := frame;
    match variant {
      case Plain =>
      case Smack =>
        var crcData := [cmdByte] + data;
        var crcVal := Crc16(crcData);
        res := KissEscapeByte(res, LowByte(crcVal));
        res := KissEscapeByte(res, HighByte(crcVal));
        EscapePair(LowByte(crcVal), HighByte(crcVal));
      case FlexNet =>
        var crcData := [cmdByte] + data;
        var crcVal := CrcFlex(crcData);
        res := KissEscapeByte(res, HighByte(crcVal));
        res := KissEscapeByte(res, LowByte(crcVal));
        EscapePair(HighByte(crcVal), LowByte(crcVal));
      case BpqCrc =>
        var xor := XorBytes(data);
        res := KissEscapeByte(res, xor);
        EscapeOne(xor);
    }
  }

  lemma EscapePair(a: byte, b: byte)
    ensures Escape([a, b]) == EscapeByte(a) + EscapeByte(b)
  {
    EscapeOne(a);
    assert [a, b][..1] == [a];
  }

  method XorBytes(data: seq<byte>) returns (xor: byte)
    ensures xor == XorAll(data)
  {
    xor := 0;
    for i := 0 to |data|
      invariant xor == XorAll(data[..i])
    {
      assert data[..i + 1][..i] == data[..i];
      xor := xor ^ data[i];
    }
    assert data[..|data|] == data;
  }

  // ----- Decoding -----

  datatype KissState = SyncHunt | Collecting | Escaped

  /** The decoder's state and the bytes of the frame so far. */
  datatype Decoder = Decoder(state: KissState, buffer: seq<byte>)

  const START := Decoder(SyncHunt, [])

  /** A decoder after some input, and the frames it gave out. */
  datatype Fed = Fed(decoder: Decoder, frames: seq<KissFrame>)

  function EmitFrame(buffer: seq<byte>): seq<KissFrame> {
    if buffer == [] then [] else [KissFrame(buffer[0], buffer[1..])]
  }

  function Next(d: Decoder, b: byte): Fed {
    match d.state
    case SyncHunt => Fed(if b == FEND then Decoder(Collecting, []) else d, [])
    case Collecting =>
      if b == FEND then Fed(Decoder(Collecting, []), EmitFrame(d.buffer))
      else if b == FESC then Fed(d.(state := Escaped), [])
      else if |d.buffer| + 1 > MAX_FRAME_LEN then Fed(Decoder(SyncHunt, []), [])
      else Fed(d.(buffer := d.buffer + [b]), [])
    case Escaped =>
      var added := if b == TFEND then [FEND] else if b == TFESC then [FESC] else [];
      Fed(Decoder(Collecting, d.buffer + added), [])
  }

  function Run(d: Decoder, bytes: seq<byte>): Fed
    decreases |bytes|
  {
    if bytes == [] then Fed(d, [])
    else
      var before := Run(d, bytes[..|bytes| - 1]);
      var last := Next(before.decoder, bytes[|bytes| - 1]);
      Fed(last.decoder, before.frames + last.frames)
  }

  class KissDecoder {
    var state: KissState
    var buffer: seq<byte>

    function Value(): Decoder
      reads this
    {
      Decoder(state, buffer)
    }

    constructor ()
      ensures Value() == START
    {
      state := SyncHunt;
      buffer := [];
    }

    /** Gives out the buffered frame, if there is one, and empties the buffer. */
    method Emit() returns (frames: seq<KissFrame>)
      modifies this
      ensures frames == EmitFrame(old(buffer)) && buffer == [] && state == old(state)
    {
      if buffer == [] {
        return [];
      }
      var cmdByte := buffer[0];
      var data := buffer[1..];
      buffer := [];
      return [KissFrame(cmdByte, data)];
    }

    method Feed(data: seq<byte>) returns (frames: seq<KissFrame>)
      modifies this
      ensures Fed(Value(), frames) == Run(old(Value()), data)
    {
      frames := [];
      for i := 0 to |data|
        invariant Fed(Value(), frames) == Run(old(Value()), data[..i])
      {
        assert data[..i + 1][..i] == data[..i];
        var more := FeedByte(data[i]);
        frames := frames + more;
      }
      assert data[..|data|] == data;
    }

    method FeedByte(b: byte) returns (frames: seq<KissFrame>)
      modifies this
      ensures Fed(Value(), frames) == Next(old(Value()), b)
    {
      frames := [];
      match state {
        case SyncHunt =>
          if b == FEND {
            state := Collecting;
            buffer := [];
          }
        case Collecting =>
          if b == FEND {
            frames := Emit();
          } else if b == FESC {
            state := Escaped;
          } else {
            buffer := buffer + [b];
            if |buffer| > MAX_FRAME_LEN {
              buffer := [];
              state := SyncHunt;
            }
          }
        case Escaped =>
          if b == TFEND {
            buffer := buffer + [FEND];
          } else if b == TFESC {
            buffer := buffer + [FESC];
          }
          state := Collecting;
      }
    }
  }

  /** Behind an escape every byte but the two transposed ones is dropped, and collecting goes on. */
  lemma BadEscapeIsDropped(buffer: seq<byte>, b: byte)
    ensures Next(Decoder(Collecting, buffer), 0xDB) == Fed(Decoder(Escaped, buffer), [])
    ensures b != 0xDC && b != 0xDD ==> Next(Decoder(Escaped, buffer), b) == Fed(Decoder(Collecting, buffer), [])
  {
    assert buffer + [] == buffer;
  }

  // ----- Streaming -----

  function Then(first: Fed, bytes: seq<byte>): Fed {
    var rest := Run(first.decoder, bytes);
    Fed(rest.decoder, first.frames + rest.frames)
  }

  /** Input may arrive in chunks of any size: the frames are the same for every split, from
      every state. */
  lemma {:induction false} ChunksDoNotMatter(d: Decoder, a: seq<byte>, b: seq<byte>)
    ensures Run(d, a + b) == Then(Run(d, a), b)
    decreases |b|
  {
    hide Next;
    if b == [] {
      assert a + b == a;
    } else {
      var n := |b| - 1;
      ChunksDoNotMatter(d, a, b[..n]);
      assert (a + b)[..|a + b| - 1] == a + b[..n];
    }
  }

  lemma RunOne(d: Decoder, b: byte)
    ensures Run(d, [b]) == Next(d, b)
  {
    assert [b][..0] == [];
  }

  lemma RunCons(d: Decoder, b: byte, rest: seq<byte>)
    ensures Run(d, [b] + rest) == Then(Next(d, b), rest)
  {
    hide Next;
    ChunksDoNotMatter(d, [b], rest);
    RunOne(d, b);
  }

  /** From position 2000 on, only bytes that travel escaped get past the length check. */
  predicate Passes(start: nat, body: seq<byte>) {
    forall j :: 0 <= j < |body| && start + j >= 2000 ==> Special(body[j])
  }

  /** An escaped body is collected as it was, or - when it does not pass - lost as a whole. */
  lemma {:induction false} CollectEscaped(buffer: seq<byte>, body: seq<byte>)
    ensures Run(Decoder(Collecting, buffer), Escape(body)) ==
            Fed(if Passes(|buffer|, body) then Decoder(Collecting, buffer + body) else Decoder(SyncHunt, []), [])
    decreases |body|
  {
    hide Next, EscapeByte;
    if body == [] {
      assert buffer + body == buffer;
    } else {
      hide Passes;
      var n := |body| - 1;
      CollectEscaped(buffer, body[..n]);
      ChunksDoNotMatter(Decoder(Collecting, buffer), Escape(body[..n]), EscapeByte(body[n]));
      PassesSnoc(|buffer|, body);
      if Passes(|buffer|, body[..n]) {
        CollectEscapedByte(buffer + body[..n], body[n]);
        assert buffer + body == buffer + body[..n] + [body[n]];
      } else {
        HuntEscapedByte(body[n]);
      }
    }
  }

  lemma PassesSnoc(start: nat, body: seq<byte>)
    requires body != []
    ensures var n := |body| - 1;
            Passes(start, body) <==> Passes(start, body[..n]) && (start + n < MAX_FRAME_LEN || Special(body[n]))
  {
    var n := |body| - 1;
    assert forall j :: 0 <= j < n ==> body[..n][j] == body[j];
  }

  lemma CollectEscapedByte(buffer: seq<byte>, b: byte)
    ensures Run(Decoder(Collecting, buffer), EscapeByte(b)) ==
            Fed(if |buffer| < MAX_FRAME_LEN || Special(b) then Decoder(Collecting, buffer + [b])
                else Decoder(SyncHunt, []), [])
  {
    var d := Decoder(Collecting, buffer);
    if Special(b) {
      var t := if b == FEND then TFEND else TFESC;
      assert EscapeByte(b) == [FESC] + [t];
      RunCons(d, FESC, [t]);
      RunOne(Decoder(Escaped, buffer), t);
    } else {
      RunOne(d, b);
    }
  }

  lemma HuntEscapedByte(b: byte)
    ensures Run(Decoder(SyncHunt, []), EscapeByte(b)) == Fed(Decoder(SyncHunt, []), [])
  {
    var d := Decoder(SyncHunt, []);
    if Special(b) {
      var t := if b == FEND then TFEND else TFESC;
      assert EscapeByte(b) == [FESC] + [t];
      RunCons(d, FESC, [t]);
      RunOne(d, t);
    } else {
      RunOne(d, b);
    }
  }

  lemma {:induction false} HuntEscaped(body: seq<byte>)
    ensures Run(Decoder(SyncHunt, []), Escape(body)) == Fed(Decoder(SyncHunt, []), [])
    decreases |body|
  {
    if body != [] {
      var n := |body| - 1;
      HuntEscaped(body[..n]);
      ChunksDoNotMatter(Decoder(SyncHunt, []), Escape(body[..n]), EscapeByte(body[n]));
      HuntEscapedByte(body[n]);
    }
  }

  // ----- Frames -----

  /** A frame handed to the encoder. */
  datatype Outgoing = Outgoing(data: seq<byte>, cmdByte: byte, variant: KissVariant)

  function BodyOf(o: Outgoing): seq<byte> {
    Body(o.data, o.cmdByte, o.variant)
  }

  function Wire(o: Outgoing): seq<byte> {
    Encoded(o.data, o.cmdByte, o.variant)
  }

  /** What the receiver should get: the check bytes stay in the data. */
  function Sent(o: Outgoing): KissFrame {
    KissFrame(o.cmdByte, BodyOf(o))
  }

  /** The frame can be carried: its command byte, which is not escaped, needs no escape, and
      every byte past the length limit travels escaped. */
  predicate Fits(o: Outgoing) {
    !Special(o.cmdByte) && Passes(1, BodyOf(o))
  }

  /** Frames whose command byte is ordinary and whose decoded length is within the limit fit. */
  lemma ShortFramesFit(o: Outgoing)
    requires !Special(o.cmdByte) && 1 + |BodyOf(o)| <= MAX_FRAME_LEN
    ensures Fits(o)
  {
  }

  /** What is left of an encoded frame after its first FEND. */
  function AfterFend(o: Outgoing): seq<byte> {
    [o.cmdByte] + Escape(BodyOf(o)) + [FEND]
  }

  /** On the wire a frame is FEND, the command byte as it is, and then nothing that looks like FEND up to the
      closing one. */
  lemma WireShape(o: Outgoing)
    ensures var w := Wire(o);
            && |w| >= 3 && w[0] == 0xC0 && w[1] == o.cmdByte && w[|w| - 1] == 0xC0
            && forall i :: 2 <= i < |w| - 1 ==> w[i] != 0xC0
  {
    hide BodyOf, Escape;
    RevealBody(o);
    var inner := Escape(BodyOf(o));
    NoFendInside(BodyOf(o));
    assert Wire(o) == [FEND, o.cmdByte] + inner + [FEND];
    assert forall i :: 0 <= i < |inner| ==> Wire(o)[i + 2] == inner[i];
    assert forall i :: 2 <= i < |Wire(o)| - 1 ==> Wire(o)[i] == inner[i - 2];
  }

  lemma {:induction false} NoFendInside(body: seq<byte>)
    ensures forall i :: 0 <= i < |Escape(body)| ==> Escape(body)[i] != 0xC0
    decreases |body|
  {
    if body != [] {
      NoFendInside(body[..|body| - 1]);
    }
  }

  lemma WireParts(d: Decoder, o: Outgoing)
    ensures Run(d, Wire(o)) == Then(Next(d, FEND), AfterFend(o))
  {
    hide Next, BodyOf;
    RevealBody(o);
    assert Wire(o) == [FEND] + AfterFend(o);
    RunCons(d, FEND, AfterFend(o));
  }

  lemma RevealBody(o: Outgoing)
    ensures BodyOf(o) == Body(o.data, o.cmdByte, o.variant)
  {
  }

  lemma AfterFendParts(d: Decoder, o: Outgoing)
    ensures Run(d, AfterFend(o)) == Then(Then(Next(d, o.cmdByte), Escape(BodyOf(o))), [FEND])
  {
    hide Next, BodyOf;
    ChunksDoNotMatter(d, [o.cmdByte] + Escape(BodyOf(o)), [FEND]);
    RunCons(d, o.cmdByte, Escape(BodyOf(o)));
  }

  /** Collecting a frame behind bytes that are already in the buffer. */
  lemma CollectFrame(buffer: seq<byte>, o: Outgoing)
    requires !Special(o.cmdByte)
    ensures Run(Decoder(Collecting, buffer), AfterFend(o)) ==
            Fed(Decoder(Collecting, []),
                if Passes(|buffer|, [o.cmdByte] + BodyOf(o)) then EmitFrame(buffer + [o.cmdByte] + BodyOf(o)) else [])
  {
    hide BodyOf;
    var d := Decoder(Collecting, buffer);
    var body := BodyOf(o);
    AfterFendParts(d, o);
    PassesCons(|buffer|, o.cmdByte, body);
    if |buffer| < MAX_FRAME_LEN {
      CollectEscaped(buffer + [o.cmdByte], body);
      RunOne(Decoder(Collecting, buffer + [o.cmdByte] + body), FEND);
    } else {
      HuntEscaped(body);
    }
    RunOne(START, FEND);
  }

  lemma PassesCons(start: nat, b: byte, body: seq<byte>)
    ensures Passes(start, [b] + body) <==> (start < MAX_FRAME_LEN || Special(b)) && Passes(start + 1, body)
  {
    var whole := [b] + body;
    assert whole[0] == b && forall j :: 0 <= j < |body| ==> whole[j + 1] == body[j];
    if Passes(start, whole) {
      forall j | 0 <= j < |body| && start + 1 + j >= MAX_FRAME_LEN ensures Special(body[j]) {
        assert Special(whole[j + 1]);
      }
    } else {
      var j :| 0 <= j < |whole| && start + j >= MAX_FRAME_LEN && !Special(whole[j]);
      if j > 0 {
        assert !Special(body[j - 1]);
      }
    }
  }

  /** The round trip of one frame through a fresh decoder: it succeeds exactly for the frames
      that fit. */
  lemma RoundTripIff(o: Outgoing)
    ensures Run(START, Wire(o)).frames == [Sent(o)] <==> Fits(o)
  {
    if !Special(o.cmdByte) {
      FreshFrame(o);
    } else {
      SpecialCommand(o);
    }
  }

  /** A frame without FEND and FESC gets through exactly up to 2000 bytes, command and checksum included. */
  lemma PlainFrameLimit(o: Outgoing)
    requires !Special(o.cmdByte) && forall i :: 0 <= i < |BodyOf(o)| ==> BodyOf(o)[i] != 0xC0 && BodyOf(o)[i] != 0xDB
    ensures Run(START, Wire(o)).frames == [Sent(o)] <==> 1 + |BodyOf(o)| <= 2000
  {
    hide Run, Wire, BodyOf;
    RoundTripIff(o);
    if 1 + |BodyOf(o)| > 2000 {
      assert !Special(BodyOf(o)[1999]);
    }
  }

  lemma FreshFrame(o: Outgoing)
    requires !Special(o.cmdByte)
    ensures Run(START, Wire(o)).frames == if Fits(o) then [Sent(o)] else []
  {
    hide BodyOf, Passes, Wire, AfterFend, Escape;
    WireParts(START, o);
    CollectFrame([], o);
    PassesCons(0, o.cmdByte, BodyOf(o));
    assert [] + [o.cmdByte] + BodyOf(o) == [o.cmdByte] + BodyOf(o);
  }

  lemma SpecialCommand(o: Outgoing)
    requires Special(o.cmdByte)
    ensures Run(START, Wire(o)).frames != [Sent(o)]
  {
    hide BodyOf, Passes, Wire, AfterFend, Escape;
    var body := BodyOf(o);
    WireParts(START, o);
    AfterFendParts(Decoder(Collecting, []), o);
    var d := if o.cmdByte == FEND then Decoder(Collecting, []) else Decoder(Escaped, []);
    assert Next(Decoder(Collecting, []), o.cmdByte) == Fed(d, []);
    if o.cmdByte == FEND {
      LostCommand([], body);
    } else {
      EscapedCommand(body);
    }
    var frames := Then(Run(d, Escape(body)), [FEND]).frames;
    assert Run(START, Wire(o)).frames == frames;
    assert frames == [Sent(o)] ==> Sent(o) in frames;
  }

  /** Frames that come out of a body collected in full are one byte short of the one sent. */
  lemma LostCommand(buffer: seq<byte>, body: seq<byte>)
    requires |buffer| <= 1
    ensures var frames := Then(Run(Decoder(Collecting, buffer), Escape(body)), [FEND]).frames;
            forall f :: f in frames ==> |f.data| < |buffer| + |body|
  {
    hide Passes;
    CollectEscaped(buffer, body);
    RunOne(Decoder(Collecting, buffer + body), FEND);
    RunOne(START, FEND);
  }

  lemma EscapedCommand(body: seq<byte>)
    ensures forall f :: f in Then(Run(Decoder(Escaped, []), Escape(body)), [FEND]).frames ==> |f.data| < |body|
  {
    if body == [] {
      RunOne(Decoder(Escaped, []), FEND);
    } else {
      var rest := body[1..];
      assert body == [body[0]] + rest;
      EscapeConcat([body[0]], rest);
      EscapeOne(body[0]);
      ChunksDoNotMatter(Decoder(Escaped, []), EscapeByte(body[0]), Escape(rest));
      var buffer := EscapedFirst(body[0]);
      LostCommand(buffer, rest);
    }
  }

  lemma EscapedFirst(b: byte) returns (buffer: seq<byte>)
    ensures |buffer| <= 1
    ensures Run(Decoder(Escaped, []), EscapeByte(b)) == Fed(Decoder(Collecting, buffer), [])
  {
    if Special(b) {
      var t := if b == FEND then TFEND else TFESC;
      assert EscapeByte(b) == [FESC] + [t];
      RunCons(Decoder(Escaped, []), FESC, [t]);
      RunOne(Decoder(Collecting, []), t);
      buffer := [t];
    } else {
      RunOne(Decoder(Escaped, []), b);
      buffer := if b == TFEND then [FEND] else if b == TFESC then [FESC] else [];
    }
  }

  // ----- Streams of frames -----

  function Stream(frames: seq<Outgoing>): seq<byte> {
    if frames == [] then [] else Stream(frames[..|frames| - 1]) + Wire(frames[|frames| - 1])
  }

  function SentAll(frames: seq<Outgoing>): seq<KissFrame> {
    seq(|frames|, i requires 0 <= i < |frames| => Sent(frames[i]))
  }

  /** Between frames the decoder is either fresh or waiting for the next command byte. */
  predicate Idle(d: Decoder) {
    d == START || d == Decoder(Collecting, [])
  }

  lemma IdleFrame(d: Decoder, o: Outgoing)
    requires Idle(d) && Fits(o)
    ensures Run(d, Wire(o)) == Fed(Decoder(Collecting, []), [Sent(o)])
  {
    hide BodyOf, Passes, Run, Wire, AfterFend, Escape;
    WireParts(d, o);
    CollectFrame([], o);
    PassesCons(0, o.cmdByte, BodyOf(o));
    assert [] + [o.cmdByte] + BodyOf(o) == [o.cmdByte] + BodyOf(o);
  }

  /** Any list of fitting frames, of any mix of variants, comes out exactly, in order. */
  lemma {:induction false} StreamRoundTrip(frames: seq<Outgoing>)
    requires forall i :: 0 <= i < |frames| ==> Fits(frames[i])
    ensures Run(START, Stream(frames)).frames == SentAll(frames)
    ensures Idle(Run(START, Stream(frames)).decoder)
    decreases |frames|
  {
    hide Fits, Wire, Sent, SentAll, Next;
    if frames == [] {
      NothingSent();
    } else {
      var n := |frames| - 1;
      StreamRoundTrip(frames[..n]);
      ChunksDoNotMatter(START, Stream(frames[..n]), Wire(frames[n]));
      IdleFrame(Run(START, Stream(frames[..n])).decoder, frames[n]);
      SentSnoc(frames);
    }
  }

  lemma NothingSent()
    ensures SentAll([]) == []
  {
  }

  lemma SentSnoc(frames: seq<Outgoing>)
    requires frames != []
    ensures var n := |frames| - 1;
            SentAll(frames) == SentAll(frames[..n]) + [Sent(frames[n])]
  {
    hide Sent;
  }

  /** The check bytes the receiver finds in the data prove the frame. */
  lemma ReceivedChecks(o: Outgoing)
    ensures o.variant == Smack ==> Lfsr(POLY_CRC16, 0, [o.cmdByte] + Sent(o).data) == 0
    ensures o.variant == FlexNet ==> Flex([o.cmdByte] + Sent(o).data) == 0x7070
    ensures o.variant == BpqCrc ==> XorAll(Sent(o).data) == 0
  {
    hide Lfsr, Flex, LowByte, HighByte;
    var message := [o.cmdByte] + o.data;
    if o.variant == Smack {
      var crc := Lfsr(POLY_CRC16, 0, message);
      ResidueIsZero(POLY_CRC16, 0, message);
      assert [o.cmdByte] + Sent(o).data == message + [LowByte(crc)] + [HighByte(crc)];
    } else if o.variant == FlexNet {
      var crc := Flex(message);
      FlexResidue(message);
      assert [o.cmdByte] + Sent(o).data == message + [HighByte(crc)] + [LowByte(crc)];
    } else if o.variant == BpqCrc {
      assert Sent(o).data[..|o.data|] == o.data;
      XorSelf(XorAll(o.data));
    }
  }

  lemma XorSelf(b: byte)
    ensures b ^ b == 0
  {
  }

  // ----- Resynchronisation -----

  /** The frame that does not resynchronise: an unescaped FESC as command byte and nothing behind it, met
      inside an escape with bytes in the buffer, leaves those bytes in the buffer. */
  predicate KeepsBytes(d: Decoder, o: Outgoing) {
    o.cmdByte == FESC && BodyOf(o) == [] && d.state == Escaped && d.buffer != []
  }

  /** Whatever the decoder went through, one encoded frame leaves it waiting for the next with an empty
      buffer, in every case but that one. */
  lemma ResynchronisesIff(d: Decoder, o: Outgoing)
    ensures Run(d, Wire(o)).decoder == Decoder(Collecting, []) <==> !KeepsBytes(d, o)
    ensures KeepsBytes(d, o) ==> Run(d, Wire(o)).decoder == Decoder(Collecting, d.buffer)
  {
    hide BodyOf, Passes, Escape, Wire, AfterFend;
    var body := BodyOf(o);
    var opening := Next(d, FEND).decoder;
    WireParts(d, o);
    AfterFendParts(opening, o);
    var inside := Next(opening, o.cmdByte).decoder;
    var collected := Run(inside, Escape(body)).decoder;
    RunOne(collected, FEND);
    if body == [] {
      EscapeNone();
    } else {
      EscapedBodyEnds(inside, body);
    }
  }

  lemma EscapeNone()
    ensures Escape([]) == []
  {
  }

  /** Behind an escaped body the decoder is never inside an escape. */
  lemma EscapedBodyEnds(d: Decoder, body: seq<byte>)
    requires body != []
    ensures Run(d, Escape(body)).decoder.state != Escaped
  {
    hide Next, EscapeByte;
    var n := |body| - 1;
    ChunksDoNotMatter(d, Escape(body[..n]), EscapeByte(body[n]));
    EscapedByteEnds(Run(d, Escape(body[..n])).decoder, body[n]);
  }

  lemma EscapedByteEnds(d: Decoder, b: byte)
    ensures Run(d, EscapeByte(b)).decoder.state != Escaped
  {
    if Special(b) {
      var t := if b == FEND then TFEND else TFESC;
      assert EscapeByte(b) == [FESC] + [t];
      RunCons(d, FESC, [t]);
      RunOne(Next(d, FESC).decoder, t);
    } else {
      RunOne(d, b);
    }
  }

  /** So the next fitting frame comes out exactly behind whatever the first one gave, in every case but that
      one, in which the bytes kept come out in between. */
  lemma SecondFrameIff(d: Decoder, first: Outgoing, next: Outgoing)
    requires Fits(next)
    ensures Run(d, Wire(first) + Wire(next)).frames == Run(d, Wire(first)).frames + [Sent(next)]
       <==> !KeepsBytes(d, first)
    ensures KeepsBytes(d, first) ==>
              Run(d, Wire(first) + Wire(next)).frames == Run(d, Wire(first)).frames + EmitFrame(d.buffer) + [Sent(next)]
  {
    hide Wire, Fits, KeepsBytes, BodyOf;
    ChunksDoNotMatter(d, Wire(first), Wire(next));
    ResynchronisesIff(d, first);
    var before := Run(d, Wire(first));
    if KeepsBytes(d, first) {
      KeptBytesAreSome(d, first);
      ExactFrame(before.decoder, next);
      assert before.frames + (EmitFrame(d.buffer) + [Sent(next)]) == before.frames + EmitFrame(d.buffer) + [Sent(next)];
    } else {
      IdleFrame(Decoder(Collecting, []), next);
    }
  }

  lemma KeptBytesAreSome(d: Decoder, o: Outgoing)
    requires KeepsBytes(d, o)
    ensures d.buffer != []
  {
  }

  /** The unfinished frame that the first FEND completes. */
  function Partial(d: Decoder): seq<KissFrame> {
    if d.state == Collecting then EmitFrame(d.buffer) else []
  }

  /** The first frame is already exact unless the decoder stopped inside an escape with bytes
      in its buffer: then, and only then, its opening FEND is swallowed and the frame is glued
      to what came before. */
  lemma FirstFrameIff(d: Decoder, o: Outgoing)
    requires Fits(o)
    ensures Run(d, Wire(o)).frames == Partial(d) + [Sent(o)] <==> d.state != Escaped || d.buffer == []
  {
    hide BodyOf, Passes, Wire, AfterFend;
    if d.state == Escaped && d.buffer != [] {
      WireParts(d, o);
      GluedFrame(d.buffer, o);
      assert Next(d, FEND) == Fed(Decoder(Collecting, d.buffer), []);
      var frames := Run(d, Wire(o)).frames;
      assert frames == Run(Decoder(Collecting, d.buffer), AfterFend(o)).frames;
      assert frames == Partial(d) + [Sent(o)] ==> Sent(o) in frames;
    } else {
      ExactFrame(d, o);
    }
  }

  lemma ExactFrame(d: Decoder, o: Outgoing)
    requires Fits(o) && (d.state != Escaped || d.buffer == [])
    ensures Run(d, Wire(o)).frames == Partial(d) + [Sent(o)]
  {
    hide BodyOf, Passes, Wire, AfterFend;
    assert Next(d, FEND) == Fed(Decoder(Collecting, []), Partial(d));
    WireParts(d, o);
    CollectFrame([], o);
    PassesCons(0, o.cmdByte, BodyOf(o));
    assert ([] + [o.cmdByte] + BodyOf(o))[1..] == BodyOf(o);
    assert [] + [o.cmdByte] + BodyOf(o) == [o.cmdByte] + BodyOf(o);
  }

  lemma GluedFrame(buffer: seq<byte>, o: Outgoing)
    requires buffer != [] && !Special(o.cmdByte)
    ensures forall f :: f in Run(Decoder(Collecting, buffer), AfterFend(o)).frames ==> |f.data| > |Sent(o).data|
  {
    hide BodyOf, Passes;
    CollectFrame(buffer, o);
  }

  // ----- The length limit -----

  /** In every reachable state the bytes past the limit are ones that arrived escaped. */
  lemma {:induction false} BufferLimit(bytes: seq<byte>)
    ensures var d := Run(START, bytes).decoder;
            Passes(0, d.buffer) && (d.state == SyncHunt ==> d.buffer == [])
    decreases |bytes|
  {
    if bytes != [] {
      BufferLimit(bytes[..|bytes| - 1]);
    }
  }

  /** Bytes that bring a fresh decoder to state d. */
  function PathTo(d: Decoder): seq<byte> {
    match d.state
    case SyncHunt => []
    case Collecting => [FEND] + Escape(d.buffer)
    case Escaped => [FEND] + Escape(d.buffer) + [FESC]
  }

  /** The reachable states, exactly: hunting with an empty buffer, or any buffer whose bytes past the limit are
      FEND or FESC. So the buffer has no bound, but an ordinary byte never stands past the limit. */
  lemma ReachableIff(d: Decoder)
    ensures (exists bytes :: Run(START, bytes).decoder == d) <==>
            Passes(0, d.buffer) && (d.state == SyncHunt ==> d.buffer == [])
  {
    if bytes :| Run(START, bytes).decoder == d {
      BufferLimit(bytes);
    }
    if Passes(0, d.buffer) && (d.state == SyncHunt ==> d.buffer == []) {
      PathLeads(d);
    }
  }

  lemma PathLeads(d: Decoder)
    requires Passes(0, d.buffer) && (d.state == SyncHunt ==> d.buffer == [])
    ensures Run(START, PathTo(d)).decoder == d
  {
    hide Passes, Escape;
    RunCons(START, FEND, Escape(d.buffer));
    CollectEscaped([], d.buffer);
    assert [] + d.buffer == d.buffer;
    if d.state == Escaped {
      ChunksDoNotMatter(START, [FEND] + Escape(d.buffer), [FESC]);
      RunOne(Decoder(Collecting, d.buffer), FESC);
    }
  }

  /** An escaped body takes the buffer past the limit exactly when it is long enough and all its bytes past the
      limit are FEND or FESC. */
  lemma OverlongIff(buffer: seq<byte>, body: seq<byte>)
    ensures |Run(Decoder(Collecting, buffer), Escape(body)).decoder.buffer| > 2000 <==>
            |buffer| + |body| > 2000 && Passes(|buffer|, body)
  {
    hide Passes;
    CollectEscaped(buffer, body);
  }

  function Fends(n: nat): (s: seq<byte>)
    ensures |s| == n
  {
    seq(n, _ => FEND)
  }

  /** In particular FENDs alone fill it to any length. */
  lemma BufferIsUnbounded(n: nat)
    ensures Run(START, [FEND] + Escape(Fends(n))).decoder == Decoder(Collecting, Fends(n))
  {
    PathLeads(Decoder(Collecting, Fends(n)));
  }
}
