/** What the next station reads of a relayed packet, whatever the received header held: in text the header
    ends at its first ':' (src/digipeater/mod.rs, src/packet.rs). */
module RelayCut {
  import opened Text
  import opened Packets
  import opened Digipeater
  import opened RelayEdit

  function PathFrom(addresses: string): seq<Via> {
    match ParseAddresses(addresses)
    case None => []
    case Some(a) => a.vias
  }

  function PathOf(p: Packet): seq<Via> {
    PathFrom(Addresses(p))
  }

  /** What is read of a printed path: its entries up to the first that holds a ':', and that one as far
      as the ':'. */
  function Cut(path: seq<Via>): seq<Via> {
    if path == [] then []
    else if ':' in path[0].raw then [ParseVia(Before(path[0].raw, ':'))]
    else [path[0]] + Cut(path[1..])
  }

  /** The fields of a header up to its first ':'. */
  function CutFields(parts: seq<string>): (cut: seq<string>)
    requires |parts| >= 1
    ensures |cut| >= 1
  {
    if ':' in parts[0] || |parts| == 1 then [Before(parts[0], ':')] else [parts[0]] + CutFields(parts[1..])
  }

  lemma {:induction false} BeforeJoin(parts: seq<string>)
    requires |parts| >= 1
    ensures Before(Join(parts, ','), ':') == Join(CutFields(parts), ',')
    decreases |parts|
  {
    hide Before;
    if |parts| > 1 {
      var rest := parts[1..];
      if ':' in parts[0] {
        BeforeOfPrefix(parts[0], [','] + Join(rest, ','), ':');
        assert parts[0] + ([','] + Join(rest, ',')) == parts[0] + [','] + Join(rest, ',');
      } else {
        BeforePastPrefix(parts[0] + [','], Join(rest, ','), ':');
        BeforeJoin(rest);
        JoinCons(parts[0], CutFields(rest), ',');
      }
    }
  }

  lemma {:induction false} CutFieldsHaveNo(parts: seq<string>, c: char)
    requires |parts| >= 1 && forall p :: p in parts ==> c !in p
    ensures forall p :: p in CutFields(parts) ==> c !in p
    decreases |parts|
  {
    assert parts[0] in parts;
    if ':' !in parts[0] && |parts| > 1 {
      CutFieldsHaveNo(parts[1..], c);
    }
  }

  lemma {:induction false} CutFieldsParse(path: seq<Via>)
    requires path != [] && AllParsable(path)
    ensures ParseVias(CutFields(PrintVias(path))) == Cut(path)
    decreases |path|
  {
    hide Parsable, ParseVia, Before;
    var v, rest := path[0], path[1..];
    var fields := PrintVias(path);
    FieldParses(v);
    assert fields[1..] == PrintVias(rest);
    if ':' !in v.raw && rest != [] {
      CutFieldsParse(rest);
    }
  }

  lemma FieldParses(v: Via)
    requires Parsable(v)
    ensures ':' in PrintVia(v) <==> ':' in v.raw
    ensures ParseVia(Before(PrintVia(v), ':')) == if ':' in v.raw then ParseVia(Before(v.raw, ':')) else v
    ensures ParseVia(PrintVia(v)) == v
  {
    PrintThenParse(v);
    if ':' in v.raw {
      BeforeOfPrefix(v.raw, "*", ':');
    } else {
      BeforeAbsent(PrintVia(v), ':');
    }
  }

  /** Reading the part of a printed header before its first ':'. */
  lemma ReadCut(source: string, dest: string, path: seq<Via>)
    requires '>' !in source && ',' !in dest && AllParsable(path)
    ensures PathFrom(Before(Header(source, dest, PrintVias(path)), ':'))
         == if ':' in source || ':' in dest then [] else Cut(path)
  {
    hide Parsable, Before, After, Split;
    var parts := [dest] + PrintVias(path);
    var rest := Join(parts, ',');
    var header := Header(source, dest, PrintVias(path));
    assert header == source + ['>'] + rest;
    if ':' in source {
      BeforeOfPrefix(source, ['>'] + rest, ':');
      assert source + (['>'] + rest) == header;
      assert forall c :: c in Before(source, ':') ==> c in source;
    } else {
      BeforePastPrefix(source + ['>'], rest, ':');
      BeforeJoin(parts);
      BeforeConcat(source, '>', Join(CutFields(parts), ','));
      PrintedFieldsHaveNoComma(path);
      CutFieldsHaveNo(parts, ',');
      SplitJoin(CutFields(parts), ',');
      CutTail(dest, path);
    }
  }

  lemma PrintedFieldsHaveNoComma(path: seq<Via>)
    requires AllParsable(path)
    ensures forall f :: f in PrintVias(path) ==> ',' !in f
  {
  }

  lemma CutTail(dest: string, path: seq<Via>)
    requires AllParsable(path)
    ensures ParseVias(CutFields([dest] + PrintVias(path))[1..]) == if ':' in dest then [] else Cut(path)
  {
    hide Parsable, ParseVia;
    var fields := PrintVias(path);
    assert ([dest] + fields)[1..] == fields;
    if ':' !in dest && path != [] {
      CutFieldsParse(path);
      assert CutFields([dest] + fields)[1..] == CutFields(fields);
    }
  }

  lemma AddressesOfText(header: string, payload: string)
    ensures Addresses(Receive(header + ":" + payload)) == Before(header, ':')
  {
    var i := IndexOf(header, ':');
    IndexOfUnique(header + ":" + payload, ':', i);
  }

  /** The path the next station reads, for every packet and every station call that survives as one
      entry: nothing when source or destination hold a ':', else the new path up to its first ':'. */
  lemma PathAfterRelay(p: Packet, config: DigiConfig)
    requires Relays(p, config) && ',' !in config.transmitterCall && !EndsWithStar(config.transmitterCall)
    ensures PathOf(Relayed(p, config)) ==
            if ':' in Parsed(p).source || ':' in Parsed(p).dest then [] else Cut(NewPath(p, config))
  {
    hide Decide, Header, PrintVias, Payload, Before, NewPath, ParseAddresses, Parsable, Cut;
    var a := Parsed(p);
    ParsedParts(Addresses(p));
    NewPathIsParsable(p, config);
    RelayedText(p, config);
    AddressesOfText(Header(a.source, a.dest, PrintVias(NewPath(p, config))), Payload(p));
    ReadCut(a.source, a.dest, NewPath(p, config));
    assert Relayed(p, config) == Receive(Header(a.source, a.dest, PrintVias(NewPath(p, config))) + ":" + Payload(p));
  }

  lemma NewPathIsParsable(p: Packet, config: DigiConfig)
    requires Relays(p, config) && ',' !in config.transmitterCall && !EndsWithStar(config.transmitterCall)
    ensures AllParsable(NewPath(p, config))
  {
    hide TakeHop, HasOwnMark, MarkCount, Header, PrintVias, ParseAddresses, Parsable;
    var vias := Parsed(p).vias;
    ParsedParts(Addresses(p));
    DecideReplaces(vias, config);
    EntriesAreParsable(vias[Target(vias)], config);
    hide Target;
    AllParsableConcat(vias[..Target(vias)], NewEntries(p, config), vias[Target(vias) + 1..]);
  }

  lemma EntriesAreParsable(target: Via, config: DigiConfig)
    requires Parsable(target) && TakeHop(target, config).Replace?
    requires ',' !in config.transmitterCall && !EndsWithStar(config.transmitterCall)
    ensures AllParsable(TakeHop(target, config).entries)
  {
    MarkedIsParsable(config.transmitterCall);
    EntriesShape(target, config);
    hide *;
    if KeepsName(target, config) {
      RemainingIsParsable(target);
      TwoAreParsable(Marked(config.transmitterCall), Remaining(target.callsign, target.ssid - 1));
    } else {
      TwoAreParsable(Marked(config.transmitterCall), Marked(config.transmitterCall));
    }
  }

  lemma MarkedIsParsable(call: string)
    requires ',' !in call && !EndsWithStar(call)
    ensures Parsable(Marked(call))
  {
  }

  lemma TwoAreParsable(v: Via, w: Via)
    requires Parsable(v) && Parsable(w)
    ensures AllParsable([v]) && AllParsable([v, w])
  {
    hide Parsable;
  }

  lemma AllParsableConcat(a: seq<Via>, b: seq<Via>, c: seq<Via>)
    requires AllParsable(a) && AllParsable(b) && AllParsable(c)
    ensures AllParsable(a + b + c)
  {
    hide Parsable;
  }

  // ----- Laws of Cut -----

  lemma {:induction false} CutConcat(a: seq<Via>, b: seq<Via>)
    ensures Cut(a + b) == if ColonFree(a) then a + Cut(b) else Cut(a)
    decreases |a|
  {
    hide ParseVia;
    if a == [] {
      assert a + b == b;
    } else {
      CutConcat(a[1..], b);
      assert (a + b)[1..] == a[1..] + b;
      assert a == [a[0]] + a[1..];
      ColonFreeConcat([a[0]], a[1..]);
    }
  }
}
