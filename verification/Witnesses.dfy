/** Inputs at which a promise fails: for each exact condition proved elsewhere, one case outside it. */
module Witnesses {
  import opened Text
  import opened Packets
  import opened Digipeater
  import opened RelayChains
  import opened RelayCut
  import opened RelayEdit
  import A = Ax25
  import C = Crc
  import D = Dashboard
  import E = FlexErrors
  import F = FrameText
  import G = Igate
  import H = FrameHeader
  import K = Kiss
  import L = RateLimiting
  import Q = Routing
  import S = Stations

  // ----- Relays -----

  /** A station that answers WIDE and limits nothing but the marks. */
  function Station(call: string, maxHopsDone: u8): DigiConfig {
    DigiConfig(call, 255, maxHopsDone, ["WIDE"])
  }

  /** A packet from S to D over a path, header as printed. */
  function PacketWith(path: seq<Via>): Packet {
    var header := Header("S", "D", PrintVias(path));
    RawPacket(header + ":" + "p", |header|, "rf", true)
  }

  lemma ParsedPacketWith(path: seq<Via>)
    requires AllParsable(path)
    ensures ParseAddresses(Addresses(PacketWith(path))) == Some(ParsedAddresses("S", "D", path))
  {
    hide Header, PrintVias, ParseAddresses, Addresses, PacketWith;
    ParseHeader("S", "D", path);
    AddressesWith(path);
  }

  lemma KeywordMatches()
    ensures MatchesKeyword("WIDE1", ["WIDE"]) && MatchesKeyword("WIDE2", ["WIDE"])
  {
    assert Upper("WIDE") == "WIDE" && Upper("WIDE1") == "WIDE1" && Upper("WIDE2") == "WIDE2";
    assert "WIDE" in ["WIDE"];
  }

  /** The last hop of a WIDE1 entry, which every station takes. */
  function LastHop(): Via {
    Remaining("WIDE1", 1)
  }

  lemma LastHopIsTaken(call: string, maxHopsDone: u8)
    ensures Parsable(LastHop()) && ColonFree([LastHop()]) && !LastHop().hBit && LastHop().ssid == 1
    ensures TakeHop(LastHop(), Station(call, maxHopsDone)) == Replace([Marked(call)])
  {
    hide MatchesKeyword, Upper, ExtractRequestedN;
    KeywordMatches();
    RemainingHasNo("WIDE1", 1);
  }

  lemma RemainingHasNo(name: string, n: u8)
    requires n >= 1 && ',' !in name
    ensures Parsable(Remaining(name, n)) && (':' in Remaining(name, n).raw <==> ':' in name)
  {
    DigitsAreClean(n);
    RemainingSplits(name, n);
  }

  /** Stations relay a path of foreign marks, a last hop and anything behind it. */
  lemma PathIsRelayed(marks: seq<Via>, more: seq<Via>, call: string, maxHopsDone: u8)
    requires AllParsable(marks) && AllParsable(more)
    requires forall i :: 0 <= i < |marks| ==> marks[i].hBit
    requires !HasOwnMark(marks + [LastHop()] + more, call)
    requires MarkCount(marks + [LastHop()] + more) % 256 <= maxHopsDone
    ensures var path, config := marks + [LastHop()] + more, Station(call, maxHopsDone);
            && ParseAddresses(Addresses(PacketWith(path))) == Some(ParsedAddresses("S", "D", path))
            && Relays(PacketWith(path), config) && Target(path) == |marks|
            && NewPath(PacketWith(path), config) == marks + [Marked(call)] + more
  {
    hide HasOwnMark, MarkCount, TakeHop, Header, PrintVias, Parsable, ParseAddresses, LastHop;
    var path, config := marks + [LastHop()] + more, Station(call, maxHopsDone);
    LastHopIsTaken(call, maxHopsDone);
    ParsedPacketWith(path);
    assert path[|marks|] == LastHop();
    TargetIs(path, |marks|);
    assert path[..|marks|] == marks && path[|marks| + 1..] == more;
  }

  lemma TargetIs(path: seq<Via>, t: nat)
    requires FirstUnmarked(path, t)
    ensures Target(path) == t
  {
  }

  lemma NoMarksYet(path: seq<Via>, call: string)
    requires |path| <= 2 && forall i :: 0 <= i < |path| ==> !path[i].hBit
    ensures !HasOwnMark(path, call) && MarkCount(path) == 0
  {
  }

  lemma OneHopRelayed(call: string)
    ensures var p, config := PacketWith([LastHop()]), Station(call, 255);
            Relays(p, config) && Parsed(p) == ParsedAddresses("S", "D", [LastHop()])
            && ':' !in Addresses(p)
  {
    hide TakeHop, Header, PrintVias, Parsable, LastHop, Relays, ParseAddresses, Addresses, PacketWith, HasOwnMark,
         MarkCount, NewPath;
    LastHopIsTaken(call, 255);
    NoMarksYet([LastHop()], call);
    assert [] + [LastHop()] + [] == [LastHop()];
    PathIsRelayed([], [], call, 255);
    HeaderColons("S", "D", [LastHop()]);
    AddressesWith([LastHop()]);
  }

  lemma AddressesWith(path: seq<Via>)
    ensures Addresses(PacketWith(path)) == Header("S", "D", PrintVias(path))
  {
    hide Header, PrintVias;
    var header := Header("S", "D", PrintVias(path));
    assert (header + ":" + "p")[..|header|] == header;
  }

  /** A station call that ends in '*' loses the star: its relay does not read back as intended. */
  lemma StarredCallIsMisread()
    ensures var p, config := PacketWith([LastHop()]), Station("A*", 255);
            && Relays(p, config)
            && !(ParseAddresses(Addresses(Relayed(p, config)))
                 == Some(ParsedAddresses(Parsed(p).source, Parsed(p).dest, NewPath(p, config)))
                 && Payload(Relayed(p, config)) == Payload(p))
  {
    hide *;
    OneHopRelayed("A*");
    StarIsNotClean();
    RelayIsTheIntendedEdit(PacketWith([LastHop()]), Station("A*", 255));
    StationCall("A*", 255);
  }

  lemma StarIsNotClean()
    ensures !Clean("A*")
  {
  }

  lemma StationCall(call: string, maxHopsDone: u8)
    ensures Station(call, maxHopsDone).transmitterCall == call
  {
  }

  /** A station call with a ':' changes the duplicate key of what it relays. */
  lemma ColonCallLosesKey()
    ensures var p, config := PacketWith([LastHop()]), Station("A:B", 255);
            Relays(p, config) && KeyOf(Relayed(p, config)) != KeyOf(p)
  {
    hide *;
    OneHopRelayed("A:B");
    RelayKeepsKey(PacketWith([LastHop()]), Station("A:B", 255));
    StationCall("A:B", 255);
    assert "A:B"[1] == ':';
  }

  const TO_D: seq<byte> := [0x88, 0x40, 0x40, 0x40, 0x40, 0x40, 0x60]
  const FROM_S: seq<byte> := [0xA6, 0x40, 0x40, 0x40, 0x40, 0x40, 0x60]
  const VIA_WIDE: seq<byte> := [0xAE, 0x92, 0x88, 0x8A, 0x62, 0x40, 0x62]
  const VIA_ODD: seq<byte> := [0x82, 0x5A, 0x6E, 0x74, 0x84, 0x40, 0x61]

  /** A frame from S to D over WIDE1-1 and a via whose six callsign bytes spell "A-7:B". */
  const ODD_FRAME: seq<byte> := TO_D + FROM_S + VIA_WIDE + VIA_ODD + [0x03, 0xF0, 0x70]

  /** The path entry of the last via. */
  function OddEntry(): Via {
    ViaOf("A-7:B", false)
  }

  /** A ':' in a later via of a frame off the air: the next station reads only the part before it, here with
      more hops than the whole path had. */
  lemma HopBudgetCanGrow()
    ensures A.Converted(ODD_FRAME).Ok?
    ensures A.Converted(ODD_FRAME).value.tnc2AddrLen <= |A.Converted(ODD_FRAME).value.tnc2|
    ensures var p, config := A.PacketOf(A.Converted(ODD_FRAME).value, "rf"), Station("DIGI", 255);
            && Relays(p, config) && Clean(config.transmitterCall)
            && PathOf(p) == [LastHop(), OddEntry()] && Weight(PathOf(p)) == 2
            && PathOf(Relayed(p, config)) == [Marked("DIGI"), Remaining("A", 7)]
            && Weight(PathOf(Relayed(p, config))) == 7
  {
    hide *;
    OddPacket();
    OddIsRelayed();
  }

  lemma OddIsRelayed()
    ensures var p, config := PacketWith([LastHop(), OddEntry()]), Station("DIGI", 255);
            && Relays(p, config) && Clean(config.transmitterCall)
            && PathOf(p) == [LastHop(), OddEntry()] && Weight(PathOf(p)) == 2
            && PathOf(Relayed(p, config)) == [Marked("DIGI"), Remaining("A", 7)]
            && Weight(PathOf(Relayed(p, config))) == 7
  {
    hide TakeHop, Header, PrintVias, Parsable, LastHop, OddEntry, Remaining, Marked, Relays, Relayed, NewPath,
         ParseAddresses, HasOwnMark, MarkCount, PacketWith, Cut, Addresses;
    var odd := OddEntry();
    var p, config := PacketWith([LastHop(), odd]), Station("DIGI", 255);
    LastHopIsTaken("DIGI", 255);
    OddParts();
    NoMarksYet([LastHop(), odd], "DIGI");
    assert [] + [LastHop()] + [odd] == [LastHop(), odd];
    PathIsRelayed([], [odd], "DIGI", 255);
    assert [] + [Marked("DIGI")] + [odd] == [Marked("DIGI"), odd];
    PathAfterRelay(p, config);
    OddCut();
    RemainingIs("A", 7);
    MarkedIs("DIGI");
    Weight2(LastHop(), odd);
    Weight2(Marked("DIGI"), Remaining("A", 7));
  }

  lemma RemainingIs(name: string, n: u8)
    ensures Remaining(name, n).ssid == n && !Remaining(name, n).hBit
  {
  }

  lemma OddParts()
    ensures Parsable(OddEntry()) && OddEntry().raw == "A-7:B" && OddEntry().ssid == 0 && !OddEntry().hBit
  {
    hide ParseU8, LastIndexOf;
    assert "A-7:B" == "A" + ['-'] + "7:B";
    LastIndexOfConcat("A", '-', "7:B");
    NoNumber();
  }

  lemma NoNumber()
    ensures ParseU8("7:B") == None
  {
    assert "7:B"[1] == ':';
    assert !IsDigit(':') && ':' in "7:B";
  }

  lemma OddCut()
    ensures Cut([Marked("DIGI"), OddEntry()]) == [Marked("DIGI"), Remaining("A", 7)]
  {
    hide ParseVia, Remaining, Before, OddEntry;
    MarkedIs("DIGI");
    OddParts();
    OddIsReadAs();
    assert "A-7:B"[3] == ':';
    assert [Marked("DIGI"), OddEntry()][1..] == [OddEntry()];
  }

  lemma OddIsReadAs()
    ensures ParseVia(Before("A-7:B", ':')) == Remaining("A", 7)
  {
    hide ParseVia, Before, Parsable;
    assert "A-7:B" == "A-7" + [':'] + "B";
    BeforeConcat("A-7", ':', "B");
    RemainingHasNo("A", 7);
    PrintThenParse(Remaining("A", 7));
    SevenPrinted();
  }

  lemma SevenPrinted()
    ensures PrintVia(Remaining("A", 7)) == "A-7"
  {
    assert PrintU8(7) == "7";
  }

  lemma OddPacket()
    ensures A.Converted(ODD_FRAME).Ok?
    ensures A.Converted(ODD_FRAME).value.tnc2AddrLen <= |A.Converted(ODD_FRAME).value.tnc2|
    ensures A.PacketOf(A.Converted(ODD_FRAME).value, "rf") == PacketWith([LastHop(), OddEntry()])
  {
    hide A.Converted, Header, LastHop, OddEntry, H.HeaderAt, A.WellFramed;
    OddIsFramed();
    H.HeaderIs(ODD_FRAME, 2);
    OddHeader();
    FourFields(TO_D, FROM_S, VIA_WIDE, VIA_ODD, [0x03, 0xF0, 0x70]);
    assert ODD_FRAME[28..][2..] == [0x70] == ODD_FRAME[30..];
    assert ODD_FRAME[28..][0] == 0x03 == ODD_FRAME[28] && ODD_FRAME[28..][1] == 0xF0 == ODD_FRAME[29];
    assert A.PayloadText([0x70]) == "p" by { OnePayloadByte(); }
  }

  lemma OnePayloadByte()
    ensures A.PayloadText([0x70]) == "p"
  {
    assert [0x70 as byte][1..] == [];
    assert A.CharOf(0x70) == 'p';
  }

  lemma FourFields(a: seq<byte>, b: seq<byte>, c: seq<byte>, d: seq<byte>, rest: seq<byte>)
    requires |a| == |b| == |c| == |d| == 7
    ensures var f := a + b + c + d + rest;
            && f[0..6] == a[..6] && f[7..13] == b[..6] && f[14..20] == c[..6] && f[21..27] == d[..6]
            && f[6] == a[6] && f[13] == b[6] && f[20] == c[6] && f[27] == d[6] && f[28..] == rest
  {
  }

  lemma OddIsFramed()
    ensures A.WellFramed(ODD_FRAME, 2)
  {
    OddFields();
    hide A.CallChars, A.ViaFields;
    OddCalls();
    assert A.HasCall(ODD_FRAME, 0) && A.HasCall(ODD_FRAME, 7) && A.HasCall(ODD_FRAME, 14) && A.HasCall(ODD_FRAME, 21);
    hide A.HasCall, A.EndBit;
    A.NoViaFields(ODD_FRAME, 28);
    A.ViaFieldsCons(ODD_FRAME, 21, 1);
    A.ViaFieldsCons(ODD_FRAME, 14, 2);
  }

  lemma OddFields()
    ensures |ODD_FRAME| == 31 && A.EndBit(ODD_FRAME[27])
    ensures !A.EndBit(ODD_FRAME[13]) && !A.EndBit(ODD_FRAME[20])
  {
    FourFields(TO_D, FROM_S, VIA_WIDE, VIA_ODD, [0x03, 0xF0, 0x70]);
  }

  lemma OddCalls()
    ensures |ODD_FRAME| == 31
    ensures H.CallAt(ODD_FRAME, 0) == "D" && H.CallAt(ODD_FRAME, 7) == "S"
    ensures H.CallAt(ODD_FRAME, 14) == "WIDE1" && H.CallAt(ODD_FRAME, 21) == "A-7:B"
  {
    FourFields(TO_D, FROM_S, VIA_WIDE, VIA_ODD, [0x03, 0xF0, 0x70]);
    hide A.CallChars;
    assert TO_D[..6] == [0x88, 0x40, 0x40, 0x40, 0x40, 0x40];
    assert FROM_S[..6] == [0xA6, 0x40, 0x40, 0x40, 0x40, 0x40];
    assert VIA_WIDE[..6] == [0xAE, 0x92, 0x88, 0x8A, 0x62, 0x40];
    assert VIA_ODD[..6] == [0x82, 0x5A, 0x6E, 0x74, 0x84, 0x40];
    CallOfSix(0x88, 0x40, 0x40, 0x40, 0x40, 0x40);
    CallOfSix(0xA6, 0x40, 0x40, 0x40, 0x40, 0x40);
    CallOfSix(0xAE, 0x92, 0x88, 0x8A, 0x62, 0x40);
    CallOfSix(0x82, 0x5A, 0x6E, 0x74, 0x84, 0x40);
  }

  /** The text of one callsign byte. */
  function CallText(b: byte): string {
    var ch := A.CharOf(b >> 1);
    if ch != ' ' then [ch] else ""
  }

  lemma CallOfSix(b0: byte, b1: byte, b2: byte, b3: byte, b4: byte, b5: byte)
    ensures A.CallChars([b0, b1, b2, b3, b4, b5])
         == CallText(b0) + CallText(b1) + CallText(b2) + CallText(b3) + CallText(b4) + CallText(b5)
  {
    hide A.CallChars, A.CharOf;
    F.CallCharsEmpty();
    F.CallCharsSnoc([], b0);
    F.CallCharsSnoc([b0], b1);
    F.CallCharsSnoc([b0, b1], b2);
    F.CallCharsSnoc([b0, b1, b2], b3);
    F.CallCharsSnoc([b0, b1, b2, b3], b4);
    F.CallCharsSnoc([b0, b1, b2, b3, b4], b5);
    assert [] + [b0] == [b0] && [b0] + [b1] == [b0, b1] && [b0, b1] + [b2] == [b0, b1, b2];
    assert [b0, b1, b2] + [b3] == [b0, b1, b2, b3] && [b0, b1, b2, b3] + [b4] == [b0, b1, b2, b3, b4];
    assert [b0, b1, b2, b3, b4] + [b5] == [b0, b1, b2, b3, b4, b5];
    assert "" + CallText(b0) == CallText(b0);
  }

  lemma OddHeader()
    ensures |ODD_FRAME| == 31
    ensures H.HeaderAt(ODD_FRAME, 2) == Header("S", "D", PrintVias([LastHop(), OddEntry()]))
  {
    hide A.CallChars, Header, H.NameAt, H.ViaAt, H.CallAt, OddEntry, LastHop, PrintVia;
    OddNames();
    OddVias();
    assert H.PathAt(ODD_FRAME, 14, 2) == [H.ViaAt(ODD_FRAME, 14), H.ViaAt(ODD_FRAME, 21)] by { TwoVias(); }
    assert PrintVias(H.PathAt(ODD_FRAME, 14, 2)) == PrintVias([LastHop(), OddEntry()]);
  }

  lemma TwoVias()
    ensures |ODD_FRAME| == 31
    ensures H.PathAt(ODD_FRAME, 14, 2) == [H.ViaAt(ODD_FRAME, 14), H.ViaAt(ODD_FRAME, 21)]
  {
    hide H.ViaAt;
    assert H.PathAt(ODD_FRAME, 21, 1) == [H.ViaAt(ODD_FRAME, 21)];
  }

  lemma OddNames()
    ensures |ODD_FRAME| == 31
    ensures H.NameAt(ODD_FRAME, 7) == "S" && H.NameAt(ODD_FRAME, 0) == "D"
  {
    hide H.CallAt, H.SsidAt;
    OddCalls();
    OddSsids();
  }

  lemma OddVias()
    ensures |ODD_FRAME| == 31
    ensures PrintVia(H.ViaAt(ODD_FRAME, 14)) == PrintVia(LastHop())
    ensures PrintVia(H.ViaAt(ODD_FRAME, 21)) == PrintVia(OddEntry())
  {
    hide H.CallAt, H.SsidAt, A.HBit, PrintU8, OddEntry;
    OddCalls();
    OddSsids();
    OddParts();
    assert "WIDE1" + ("-" + PrintU8(1)) == "WIDE1" + "-" + PrintU8(1);
    assert "A-7:B" + "" == "A-7:B";
  }

  lemma OddSsids()
    ensures |ODD_FRAME| == 31
    ensures H.SsidAt(ODD_FRAME, 0) == 0 && H.SsidAt(ODD_FRAME, 7) == 0
    ensures H.SsidAt(ODD_FRAME, 14) == 1 && H.SsidAt(ODD_FRAME, 21) == 0
    ensures !A.HBit(ODD_FRAME[20]) && !A.HBit(ODD_FRAME[27])
  {
    FourFields(TO_D, FROM_S, VIA_WIDE, VIA_ODD, [0x03, 0xF0, 0x70]);
  }

  // ----- The byte that counts marks -----

  function Many(n: nat): (vias: seq<Via>)
    ensures |vias| == n && forall i :: 0 <= i < n ==> vias[i] == Marked("C")
  {
    seq(n, _ => Marked("C"))
  }

  lemma {:induction false} ManyMarks(n: nat)
    ensures |Marks(Many(n))| == n
  {
    if n > 0 {
      assert Many(n) == [Marked("C")] + Many(n - 1);
      MarksCons(Marked("C"), Many(n - 1));
      ManyMarks(n - 1);
      MarkedIs("C");
    }
  }

  /** 256 marks count as none: a station that allows no relay at all relays the packet. */
  lemma HopLimitCanFail()
    ensures var p, config := PacketWith(Many(256) + [LastHop()]), Station("X", 0);
            && Relays(p, config) && |Marks(PathOf(p))| == 256
            && |Marks(PathOf(Relayed(p, config)))| > config.maxHopsDone + 1
  {
    hide *;
    var marks := Many(256);
    var path, p, config := marks + [LastHop()], PacketWith(marks + [LastHop()]), Station("X", 0);
    ManyMarked(256);
    MarksOfPath(marks);
    FullPathIsRelayed(marks);
    StationIs("X", 0);
    NoColons(marks);
    HopLimit(p, config);
  }

  lemma ManyMarked(n: nat)
    ensures |Many(n)| == n && (forall i :: 0 <= i < n ==> Many(n)[i] == Marked("C")) && |Marks(Many(n))| == n
  {
    ManyMarks(n);
  }

  lemma StationIs(call: string, maxHopsDone: u8)
    ensures Station(call, maxHopsDone).maxHopsDone == maxHopsDone && Station(call, maxHopsDone).transmitterCall == call
  {
  }

  lemma MarksOfPath(marks: seq<Via>)
    ensures |Marks(marks + [LastHop()])| == |Marks(marks)| && MarkCount(marks + [LastHop()]) == |Marks(marks)|
  {
    hide Marks, MarkCount, LastHop;
    LastHopIsTaken("X", 0);
    MarksConcat(marks, [LastHop()]);
    Marks2(LastHop(), LastHop());
    MarkCountIsMarks(marks + [LastHop()]);
  }

  lemma FullPathIsRelayed(marks: seq<Via>)
    requires |Marks(marks)| == 256 && forall i :: 0 <= i < |marks| ==> marks[i] == Marked("C")
    ensures var path := marks + [LastHop()];
            && ParseAddresses(Addresses(PacketWith(path))) == Some(ParsedAddresses("S", "D", path))
            && Relays(PacketWith(path), Station("X", 0))
            && PathOf(PacketWith(path)) == path && Parsed(PacketWith(path)) == ParsedAddresses("S", "D", path)
  {
    hide TakeHop, Header, PrintVias, LastHop, Marked, Relays, ParseAddresses, MarkCount, PacketWith, Addresses, Marks,
         HasOwnMark, Parsable;
    var path := marks + [LastHop()];
    ForeignMarks(path, marks);
    MarkedIs("C");
    MarksOfPath(marks);
    assert path + [] == path;
    PathIsRelayed(marks, [], "X", 0);
  }

  lemma ForeignMarks(path: seq<Via>, marks: seq<Via>)
    requires path == marks + [LastHop()] && forall i :: 0 <= i < |marks| ==> marks[i] == Marked("C")
    ensures AllParsable(marks) && AllParsable([]) && !HasOwnMark(path, "X")
  {
    assert Upper("C") == "C" && Upper("X") == "X";
    assert Marked("C").raw == "C";
  }

  lemma NoColons(marks: seq<Via>)
    requires forall i :: 0 <= i < |marks| ==> marks[i] == Marked("C")
    ensures NoColonPrinted(ParsedAddresses("S", "D", marks + [LastHop()]), Station("X", 0))
    ensures Clean("X")
  {
  }

  /** With a limit of 4 requested hops, WIDE2-7 is relayed. */
  lemma RequestLimitCanFail()
    ensures TakeHop(Remaining("WIDE2", 7), DigiConfig("DIGI", 4, 255, ["WIDE"])).Replace?
  {
    hide MatchesKeyword, Upper, ExtractRequestedN;
    KeywordMatches();
    TwoRequested();
  }

  lemma TwoRequested()
    ensures ExtractRequestedN("WIDE2") == 2
  {
    assert TrailingDigits("WIDE2") == "2";
    assert DecimalValue("2") == 2;
  }

  // ----- KISS -----

  const EMPTY := K.Outgoing([], 0x00, K.Plain)

  /** A decoder that stopped inside an escape behind byte 1 glues the next frame to it. */
  lemma FirstFrameCanFail()
    ensures K.Fits(EMPTY) && K.Sent(EMPTY) == K.KissFrame(0x00, [])
    ensures K.Run(K.Decoder(K.Escaped, [1]), K.Wire(EMPTY)).frames == [K.KissFrame(1, [0x00])]
  {
    hide K.Run, K.Wire, K.AfterFend;
    var d := K.Decoder(K.Escaped, [1]);
    assert [1 as byte] + [] == [1];
    K.WireParts(d, EMPTY);
    K.CollectFrame([1], EMPTY);
    assert [1] + [EMPTY.cmdByte] + K.BodyOf(EMPTY) == [1, 0x00];
  }

  /** A frame whose command byte is FEND comes out without it. */
  lemma RoundTripCanFail()
    ensures K.Run(K.START, K.Wire(K.Outgoing([1], K.FEND, K.Plain))).frames == [K.KissFrame(1, [])]
  {
    hide K.Run, K.Wire, K.AfterFend, K.Escape;
    var o := K.Outgoing([1], K.FEND, K.Plain);
    K.WireParts(K.START, o);
    K.AfterFendParts(K.Decoder(K.Collecting, []), o);
    K.CollectEscaped([], [1]);
    assert [] + [1 as byte] == [1] && K.BodyOf(o) == [1];
    K.RunOne(K.Decoder(K.Collecting, [1]), K.FEND);
  }

  /** A bare FESC command met inside an escape keeps the bytes in the buffer. */
  lemma ResynchronisingCanFail()
    ensures K.Run(K.Decoder(K.Escaped, [1]), K.Wire(K.Outgoing([], K.FESC, K.Plain))).decoder
         == K.Decoder(K.Collecting, [1])
  {
    hide K.Run, K.Wire;
    var o := K.Outgoing([], K.FESC, K.Plain);
    assert K.BodyOf(o) == [];
    K.ResynchronisesIff(K.Decoder(K.Escaped, [1]), o);
  }

  /** FlexNet takes the bytes 0x91 0x85 for two zeros, in front of anything. */
  lemma FlexCanMiss(before: seq<byte>, tail: seq<byte>)
    ensures C.Flex(before + [0x91, 0x85] + tail) == C.Flex(before + [0, 0] + tail)
  {
    hide C.Flex;
    E.FlexMissesPairIff(before, [0x91, 0x85], [0, 0], tail);
  }

  // ----- AX.25 -----

  /** A frame from ":" to "A". */
  const COLON_FRAME: seq<byte> :=
    [0x82, 0x40, 0x40, 0x40, 0x40, 0x40, 0x60, 0x74, 0x40, 0x40, 0x40, 0x40, 0x40, 0x61, 0x03, 0xF0]

  lemma HeaderColonCanFail()
    ensures var r := A.Converted(COLON_FRAME);
            r.Ok? && r.value.tnc2AddrLen <= |r.value.tnc2| && ':' in r.value.tnc2[..r.value.tnc2AddrLen]
  {
    hide A.Converted, A.CallChars;
    ColonFrameCalls();
    assert A.WellFramed(COLON_FRAME, 0);
    A.ConvertsIff(COLON_FRAME);
    F.HeaderColonIff(COLON_FRAME);
    assert F.ColonAt(COLON_FRAME, 7);
  }

  /** The via "A-7:B" of the odd frame has ssid 0, and is read as A with ssid 7 or as something else, never as
      its field says. */
  lemma HeaderCanMislead()
    ensures |ODD_FRAME| == 31 && A.Converted(ODD_FRAME).Ok?
    ensures A.Converted(ODD_FRAME).value.tnc2AddrLen <= |A.Converted(ODD_FRAME).value.tnc2|
    ensures ParseAddresses(Addresses(A.PacketOf(A.Converted(ODD_FRAME).value, "rf")))
         != Some(ParsedAddresses("S", "D", H.PathAt(ODD_FRAME, 14, 2)))
  {
    hide A.Converted, H.PathAt, H.CallAt, H.SsidAt, H.NameAt, A.PacketOf, Addresses, ParseAddresses, A.WellFramed;
    OddIsFramed();
    OddCalls();
    OddSsids();
    OddNames();
    H.HeaderReadsBackIff(ODD_FRAME, 2, "rf");
    TwoVias();
    assert H.PathAt(ODD_FRAME, 14, 2)[1].callsign == "A-7:B" && H.PathAt(ODD_FRAME, 14, 2)[1].ssid == 0;
    assert "A-7:B"[1] == '-';
  }

  lemma ColonFrameCalls()
    ensures A.HasCall(COLON_FRAME, 0) && A.HasCall(COLON_FRAME, 7) && A.EndBit(COLON_FRAME[13])
  {
    F.CallCharsHas(COLON_FRAME[0..6], 'A');
    F.CallCharsHas(COLON_FRAME[7..13], ':');
    assert A.CharOf(COLON_FRAME[0..6][0] >> 1) == 'A';
    assert A.CharOf(COLON_FRAME[7..13][0] >> 1) == ':';
  }

  // ----- Gating -----

  /** Q was heard just now. */
  function HeardQ(): G.Heard {
    G.Heard(map["Q" := S.StationRecord("Q", 0, "rf", None, 1)], 0, 1)
  }

  /** The gating loop is real: this line goes to RF, and its echo under one header is gated back. */
  lemma GatingLoopIsReal(call: string, iface: string, gateCall: string)
    requires ':' !in call
    ensures var frame := G.GateToRf(G.FromAprsis("X::Q:>D:"), call, HeardQ());
            frame.Some? && G.GateToAprsis(NewPacket(G.Nested(["A>B"], frame.value), iface, true), gateCall).Gated?
  {
    hide G.GateToRf, G.GateToAprsis, G.Nested, G.FromAprsis, G.SanitizeLine, G.IsForbiddenSource,
         G.IsForbiddenDestination, SourceCall, DestCall, NewPacket, HeardQ;
    LoopingLine();
    LoopingLineGoesOut(call);
    LoopingLineIsAllowed();
    G.GatedBackIff("X::Q:>D:", call, HeardQ(), ["A>B"], iface, gateCall);
  }

  lemma LoopingLine()
    ensures var p := G.FromAprsis("X::Q:>D:");
            && Payload(p) == ":Q:>D:" && Addresses(p) == "X" && SourceCall(p) == "X::Q:" && DestCall(p) == "D"
  {
    hide Payload, Addresses, SourceCall, DestCall, NewPacket;
    assert "X::Q:>D:" == "X" + ":" + ":Q:>D:";
    NewPacketParts("X", ":Q:>D:", "APRSIS", true);
    LoopingCalls(G.FromAprsis("X::Q:>D:"));
  }

  lemma LoopingCalls(p: Packet)
    requires p.tnc2 == "X::Q:>D:"
    ensures SourceCall(p) == "X::Q:" && DestCall(p) == "D"
  {
    hide SourceCall, DestCall;
    assert "X::Q:>D:" == "X::Q:" + ['>'] + ("D" + [':'] + "");
    CallsOf(p, "X::Q:", "D", ':', "");
    BeforeAbsent("D", '>');
    BeforeAbsent("D", ':');
  }

  lemma LoopingLineGoesOut(call: string)
    ensures G.GateToRf(G.FromAprsis("X::Q:>D:"), call, HeardQ()).Some?
  {
    hide Payload, Addresses, SourceCall, DestCall, G.FromAprsis, G.SanitizeLine, G.StartsWithAny, G.ExtractViaCallsigns;
    LoopingLine();
    AddresseeIsQ();
    var payload := Payload(G.FromAprsis("X::Q:>D:"));
    assert payload[0] == ':' && StartsWith(payload, ":");
    G.NoVias("X");
    LoopingCallsMayGo();
  }

  lemma LoopingCallsMayGo()
    ensures !G.StartsWithAny("X::Q:", G.TX_FORBIDDEN_VIA) && !G.StartsWithAny("D", G.TX_FORBIDDEN_VIA)
  {
    OtherStart("X::Q:", G.TX_FORBIDDEN_VIA);
    OtherStart("D", G.TX_FORBIDDEN_VIA);
  }

  lemma OtherStart(s: string, prefixes: seq<string>)
    requires s != [] && forall i :: 0 <= i < |prefixes| ==> prefixes[i] != [] && prefixes[i][0] != s[0]
    ensures !G.StartsWithAny(s, prefixes)
  {
  }

  lemma AddresseeIsQ()
    ensures G.MessageAddressee(":Q:>D:") == "Q" && HeardQ().Has("Q") && !HeardQ().Has("X::Q:")
  {
    assert ":Q:>D:"[1..] == "Q" + [':'] + ">D:";
    BeforeConcat("Q", ':', ">D:");
    assert Upper("Q") == "Q";
    assert Upper("X::Q:")[0] == 'X';
  }

  lemma LoopingLineIsAllowed()
    ensures G.SanitizeLine("X::Q:") == "X::Q:" && G.SanitizeLine("D") == "D"
    ensures !G.IsForbiddenSource("X::Q:") && !G.IsForbiddenDestination("D")
  {
    G.OneLineStays("X::Q:");
    G.OneLineStays("D");
    OtherStart("X::Q:", G.FORBIDDEN_SOURCE_PREFIXES);
    OtherStart("D", G.FORBIDDEN_DEST_PREFIXES);
  }

  /** A gate call with a line feed makes two lines of a gated packet. */
  lemma GatedLineCanBreak()
    ensures var r := G.GateToAprsis(NewPacket("S>D:x", "rf", true), "A\nB");
            r.Gated? && !G.OneLine(r.line)
  {
    hide G.GateInner, Payload, G.Acceptable, G.GatedLine;
    var p := NewPacket("S>D:x", "rf", true);
    PlainPacket();
    PlainIsAcceptable();
    assert "x"[0] == 'x';
    G.DirectGate(p, "A\nB", 0);
    G.GatedLineIsOneLine(p, "A\nB", 0);
    assert "A\nB"[1] == '\n';
  }

  lemma PlainIsAcceptable()
    ensures G.Acceptable(NewPacket("S>D:x", "rf", true))
  {
    hide Payload, Addresses, SourceCall, DestCall, NewPacket, G.ExtractViaCallsigns, G.IsForbiddenVia,
         G.IsForbiddenSource, G.IsForbiddenDestination;
    PlainPacket();
    PlainVias();
    PlainCalls();
    assert "x"[0] == 'x';
  }

  lemma PlainCalls()
    ensures !G.IsForbiddenSource("S") && !G.IsForbiddenDestination("D")
  {
    OtherStart("S", G.FORBIDDEN_SOURCE_PREFIXES);
    OtherStart("D", G.FORBIDDEN_DEST_PREFIXES);
  }

  lemma PlainPacket()
    ensures var p := NewPacket("S>D:x", "rf", true);
            Payload(p) == "x" && Addresses(p) == "S>D" && SourceCall(p) == "S" && DestCall(p) == "D"
  {
    assert "S>D:x" == "S>D" + ":" + "x";
    NewPacketParts("S>D", "x", "rf", true);
    assert "S>D:x" == "S" + ['>'] + ("D" + [':'] + "x");
    CallsOf(NewPacket("S>D:x", "rf", true), "S", "D", ':', "x");
    BeforeAbsent("D", '>');
    BeforeAbsent("D", ':');
  }

  lemma PlainVias()
    ensures G.ExtractViaCallsigns("S>D") == []
  {
    assert "S>D" == "S" + ['>'] + "D";
    G.ViasBehind("S", "D");
    BeforeAbsent("D", '>');
    assert Split("D", ',') == ["D"];
  }

  // ----- Limits and windows -----

  /** A packet between the initial ring and the cursor is missing from the session. */
  lemma SessionCanSkip(before: seq<string>, packet: string)
    ensures D.Session(before, [packet], []) != D.Numbered(before + [packet])[|before| - |D.Newest(before)|..]
  {
    hide D.Session, D.Numbered, D.Newest;
    D.SessionIsContiguousIff(before, [packet], []);
    assert before + [packet] + D.AllPushed([]) == before + [packet];
  }

  /** A consumer with room for one packet misses the second of two. */
  lemma ConsumerCanMiss()
    ensures var start := OneConsumer([], []);
            var end := Q.Run(start, [Q.Send(1), Q.Take, Q.TryNext] + [Q.Send(2), Q.Take, Q.TryNext]);
            Q.Fresh(start) && end.phase.Waiting? && end.arrivals == [1, 2] && Q.Reached(end.consumers[0]) == [1]
  {
    hide Q.Run, Q.Happen;
    var start := OneConsumer([], []);
    Q.RunConcat(start, [Q.Send(1), Q.Take, Q.TryNext], [Q.Send(2), Q.Take, Q.TryNext]);
    RunThree(start, Q.Send(1), Q.Take, Q.TryNext);
    SendTakeTry([], [], 1);
    RunThree(OneConsumer([1], [1]), Q.Send(2), Q.Take, Q.TryNext);
    SendTakeTry([1], [1], 2);
    assert [] + [1] == [1] && [1] + [2] == [1, 2];
  }

  /** A router that has nothing in hand, and a consumer with room for one packet. */
  function OneConsumer(arrivals: seq<int>, queue: seq<int>): Q.System<int> {
    Q.System(Q.Channel(9, [], false), arrivals, arrivals, Q.Waiting, [Q.Consumer(Q.Channel(1, queue, false), [])])
  }

  lemma SendTakeTry(arrivals: seq<int>, queue: seq<int>, packet: int)
    ensures Q.Happen(Q.Happen(Q.Happen(OneConsumer(arrivals, queue), Q.Send(packet)), Q.Take), Q.TryNext)
         == OneConsumer(arrivals + [packet], if queue == [] then queue + [packet] else queue)
  {
    var consumer := Q.Consumer(Q.Channel(1, queue, false), []);
    var sent := Q.System(Q.Channel(9, [packet], false), arrivals + [packet], arrivals, Q.Waiting, [consumer]);
    var taken := Q.System(Q.Channel(9, [], false), arrivals + [packet], arrivals + [packet], Q.Trying(packet, 0),
                          [consumer]);
    assert [] + [packet] == [packet] && [packet][1..] == [];
    assert Q.Happen(OneConsumer(arrivals, queue), Q.Send(packet)) == sent;
    assert Q.Happen(sent, Q.Take) == taken;
    assert [consumer][0 := Q.Step(consumer, Q.Offer(packet))] == [Q.Step(consumer, Q.Offer(packet))];
  }

  lemma RunThree<T>(s: Q.System<T>, a: Q.Event<T>, b: Q.Event<T>, c: Q.Event<T>)
    ensures Q.Run(s, [a, b, c]) == Q.Happen(Q.Happen(Q.Happen(s, a), b), c)
  {
    hide Q.Happen;
    assert [a, b, c][..2] == [a, b] && [a, b][..1] == [a] && [a][..0] == [];
    assert Q.Run(s, [a]) == Q.Happen(s, a);
    assert Q.Run(s, [a, b]) == Q.Happen(Q.Run(s, [a]), b);
  }

  /** A negative rate takes the tokens below zero, and half a token admits no one. */
  lemma BucketCanFail()
    ensures L.After(L.NewBucket(-60.0, 1.0, 0.0), [2.0]).tokens < 0.0
    ensures L.Granted(L.NewBucket(60.0, 0.5, 0.0), [0.0]) == 0
  {
    assert [2.0][..0] == [] && [0.0][..0] == [];
  }

  /** 201 packets between two polls: the client misses one. */
  lemma StreamCanLose(before: seq<string>, group: seq<string>)
    requires |group| == 201
    ensures |D.Received(before, [group])| < |D.AllPushed([group])|
  {
    D.StreamIsCompleteIff(before, [group]);
    assert |[group][0]| > D.MAX_RECENT_PACKETS;
  }
}
