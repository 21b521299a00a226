/** The packet record and its text accessors (src/packet.rs). */
module Packets {
  import opened Text

  /** A packet's text and the length of its address header. */
  datatype RawPacket = RawPacket(tnc2: string, addrLen: nat, sourceInterface: string, isAprs: bool)

  /** The header lies inside the text, as slicing it demands. */
  type Packet = p: RawPacket | p.addrLen <= |p.tnc2| witness RawPacket("", 0, "", false)

  /** A packet built from text: the header ends at the first ':', and is empty without one. */
  function NewPacket(tnc2: string, sourceInterface: string, isAprs: bool): Packet {
    var i := IndexOf(tnc2, ':');
    RawPacket(tnc2, if i == |tnc2| then 0 else i, sourceInterface, isAprs)
  }

  function Payload(p: Packet): string {
    if p.addrLen + 1 < |p.tnc2| then p.tnc2[p.addrLen + 1..] else ""
  }

  function Addresses(p: Packet): string {
    p.tnc2[..p.addrLen]
  }

  /** Everything before the first '>', header or not. */
  function SourceCall(p: Packet): string {
    Before(p.tnc2, '>')
  }

  /** What follows the first '>', up to the next '>', ',' or ':'. */
  function DestCall(p: Packet): string {
    Before(Before(Before(After(p.tnc2, '>'), '>'), ','), ':')
  }

  /** The identity of a packet: its path is ignored and so is trailing white space. */
  datatype DupeKey = DupeKey(addr: string, payload: string)

  function KeyOf(p: Packet): DupeKey {
    DupeKey(SourceCall(p) + ">" + DestCall(p), TrimEnd(Payload(p)))
  }

  /** Two packets share a key exactly when they agree in source call, destination call and payload up to
      trailing white space. */
  lemma SameKeyIff(p: Packet, q: Packet)
    ensures KeyOf(p) == KeyOf(q) <==>
            SourceCall(p) == SourceCall(q) && DestCall(p) == DestCall(q) && TrimEnd(Payload(p)) == TrimEnd(Payload(q))
  {
    hide DestCall, Payload, TrimEnd;
    var s, t := SourceCall(p), SourceCall(q);
    BeforeConcat(s, '>', DestCall(p));
    BeforeConcat(t, '>', DestCall(q));
    assert KeyOf(p).addr == s + ['>'] + DestCall(p) && KeyOf(q).addr == t + ['>'] + DestCall(q);
  }

  /** Text without ':' makes a packet without header, and its payload lacks the first character. */
  lemma NoHeader(text: string, sourceInterface: string, isAprs: bool)
    requires ':' !in text
    ensures var p := NewPacket(text, sourceInterface, isAprs);
            Addresses(p) == "" && Payload(p) == if text == "" then "" else text[1..]
  {
    IndexOfAbsent(text, ':');
  }

  /** The calls of a text without separators behind the destination, or without destination. */
  lemma CallsOfBareText(p: Packet, source: string, dest: string)
    requires '>' !in source && '>' !in dest && ',' !in dest && ':' !in dest
    ensures p.tnc2 == source + ['>'] + dest ==> SourceCall(p) == source && DestCall(p) == dest
    ensures p.tnc2 == source ==> SourceCall(p) == source && DestCall(p) == ""
  {
    BeforeConcat(source, '>', dest);
    BeforeAbsent(source, '>');
    BeforeAbsent(dest, '>');
    BeforeAbsent(dest, ',');
    BeforeAbsent(dest, ':');
  }

  /** Text put together as header, ':' and payload comes apart the same way. */
  lemma NewPacketParts(header: string, payload: string, source: string, isAprs: bool)
    requires ':' !in header
    ensures var p := NewPacket(header + ":" + payload, source, isAprs);
            && Addresses(p) == header && Payload(p) == payload && p.tnc2 == header + ":" + payload
            && p.sourceInterface == source && p.isAprs == isAprs
  {
    IndexOfConcat(header, ':', payload);
  }

  /** The accessors on a text that starts with source '>' dest and a separator. */
  lemma CallsOf(p: Packet, source: string, dest: string, sep: char, rest: string)
    requires '>' !in source && ',' !in dest
    requires sep == ',' || sep == ':'
    requires p.tnc2 == source + ['>'] + (dest + [sep] + rest)
    ensures SourceCall(p) == source && DestCall(p) == Before(Before(dest, '>'), ':')
  {
    BeforeConcat(source, '>', dest + [sep] + rest);
    if '>' in dest {
      BeforeOfPrefix(dest, [sep] + rest, '>');
      assert dest + ([sep] + rest) == dest + [sep] + rest;
      BeforeAbsent(Before(dest, '>'), ',');
    } else {
      BeforeAbsent(dest, '>');
      BeforePastPrefix(dest + [sep], rest, '>');
      DestAtSeparator(dest, sep, Before(rest, '>'));
    }
  }

  lemma DestAtSeparator(dest: string, sep: char, tail: string)
    requires ',' !in dest
    requires sep == ',' || sep == ':'
    ensures Before(Before(dest + [sep] + tail, ','), ':') == Before(dest, ':')
  {
    if sep == ',' {
      BeforeConcat(dest, ',', tail);
    } else {
      BeforePastPrefix(dest + [sep], tail, ',');
      if ':' in dest {
        BeforeOfPrefix(dest, [sep] + Before(tail, ','), ':');
        assert dest + ([sep] + Before(tail, ',')) == dest + [sep] + Before(tail, ',');
      } else {
        BeforeConcat(dest, ':', Before(tail, ','));
        BeforeAbsent(dest, ':');
      }
    }
  }
}
