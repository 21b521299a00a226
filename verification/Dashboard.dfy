/** The dashboard's packet ring (src/web/mod.rs) and the cursor of a client that polls it
    (src/web/server.rs). */
module Dashboard {

  const MAX_RECENT_PACKETS: nat := 200

  /** A packet as the dashboard shows it; the text fields travel as one value. */
  datatype Snapshot = Snapshot(content: string, sequence: nat)

  /** The newest entries of everything pushed so far, numbered from 1. */
  function Numbered(pushed: seq<string>): (snaps: seq<Snapshot>)
    ensures |snaps| == |pushed|
  {
    seq(|pushed|, i requires 0 <= i < |pushed| => Snapshot(pushed[i], i + 1))
  }

  function Newest(pushed: seq<string>): seq<Snapshot> {
    var all := Numbered(pushed);
    if |all| <= 200 then all else all[|all| - 200..]
  }

  /** The entries of the ring with a number above the cursor, in order. */
  function After(ring: seq<Snapshot>, cursor: nat): seq<Snapshot> {
    if ring == [] then []
    else
      var n := |ring| - 1;
      After(ring[..n], cursor) + if ring[n].sequence > cursor then [ring[n]] else []
  }

  class DashboardState {
    var recentPackets: seq<Snapshot>
    var packetSequence: nat

    /** Everything ever pushed. */
    ghost var pushed: seq<string>

    ghost predicate Valid()
      reads this
    {
      packetSequence == |pushed| && recentPackets == Newest(pushed)
    }

    constructor ()
      ensures Valid() && pushed == []
    {
      recentPackets := [];
      packetSequence := 0;
      pushed := [];
    }

    method PushPacket(snapshot: Snapshot)
      requires Valid()
      modifies this
      ensures Valid() && pushed == old(pushed) + [snapshot.content]
    {
      packetSequence := packetSequence + 1;
      var numbered := snapshot.(sequence := packetSequence);
      if |recentPackets| >= MAX_RECENT_PACKETS {
        recentPackets := recentPackets[1..];
      }
      recentPackets := recentPackets + [numbered];
      NewestSnoc(pushed, snapshot.content);
      pushed := pushed + [snapshot.content];
    }
  }

  /** A client's cursor into the stream. */
  class SseClient {
    var lastSequence: nat

    /** What the client is sent first: the ring as it is. */
    static method InitialState(state: DashboardState) returns (ring: seq<Snapshot>)
      requires state.Valid()
      ensures ring == Newest(state.pushed)
    {
      ring := state.recentPackets;
    }

    /** The cursor is read on its own, after the initial state: packets may arrive in between. */
    constructor (state: DashboardState)
      requires state.Valid()
      ensures lastSequence == |state.pushed|
    {
      lastSequence := state.packetSequence;
    }

    /** The packets since the last poll, or the newest 200 of them. */
    method Poll(state: DashboardState) returns (packets: seq<Snapshot>)
      requires state.Valid() && lastSequence <= |state.pushed|
      modifies this
      ensures lastSequence == |state.pushed|
      ensures packets == Polled(state.pushed, old(lastSequence))
    {
      PollIs(state.pushed, lastSequence);
      if state.packetSequence > lastSequence {
        packets := After(state.recentPackets, lastSequence);
        lastSequence := state.packetSequence;
      } else {
        packets := [];
      }
    }
  }

  /** What a poll should return: the pushes after the cursor, as far back as the ring reaches. */
  function Polled(pushed: seq<string>, cursor: nat): seq<Snapshot>
    requires cursor <= |pushed|
  {
    var missed := if |pushed| - cursor > 200 then |pushed| - 200 else cursor;
    Numbered(pushed)[missed..]
  }

  lemma NewestSnoc(pushed: seq<string>, content: string)
    ensures var ring := Newest(pushed);
            Newest(pushed + [content])
            == (if |ring| >= MAX_RECENT_PACKETS then ring[1..] else ring) + [Snapshot(content, |pushed| + 1)]
  {
    assert Numbered(pushed + [content]) == Numbered(pushed) + [Snapshot(content, |pushed| + 1)];
  }

  predicate Consecutive(snaps: seq<Snapshot>, first: nat) {
    forall i :: 0 <= i < |snaps| ==> snaps[i].sequence == first + i
  }

  /** The numbers in the ring are contiguous and end at the packet count. */
  lemma RingIsContiguous(pushed: seq<string>)
    ensures Consecutive(Newest(pushed), |pushed| - |Newest(pushed)| + 1)
  {
  }

  lemma {:induction false} AfterConsecutive(ring: seq<Snapshot>, first: nat, cursor: nat)
    requires Consecutive(ring, first) && first <= cursor + 1 <= first + |ring|
    ensures After(ring, cursor) == ring[cursor + 1 - first..]
    decreases |ring|
  {
    if ring != [] {
      var n := |ring| - 1;
      if cursor + 1 < first + |ring| {
        AfterConsecutive(ring[..n], first, cursor);
        assert ring[cursor + 1 - first..] == ring[..n][cursor + 1 - first..] + [ring[n]];
      } else {
        NoneAfter(ring, cursor);
      }
    }
  }

  lemma {:induction false} NoneAfter(ring: seq<Snapshot>, cursor: nat)
    requires forall i :: 0 <= i < |ring| ==> ring[i].sequence <= cursor
    ensures After(ring, cursor) == []
  {
    if ring != [] {
      NoneAfter(ring[..|ring| - 1], cursor);
    }
  }

  lemma {:induction false} AllAfter(ring: seq<Snapshot>, cursor: nat)
    requires forall i :: 0 <= i < |ring| ==> ring[i].sequence > cursor
    ensures After(ring, cursor) == ring
  {
    if ring != [] {
      AllAfter(ring[..|ring| - 1], cursor);
    }
  }

  lemma PollIs(pushed: seq<string>, cursor: nat)
    requires cursor <= |pushed|
    ensures After(Newest(pushed), cursor) == Polled(pushed, cursor)
    ensures cursor == |pushed| ==> Polled(pushed, cursor) == []
  {
    var ring := Newest(pushed);
    var first := |pushed| - |ring| + 1;
    RingIsContiguous(pushed);
    if first <= cursor + 1 {
      AfterConsecutive(ring, first, cursor);
      assert ring[cursor + 1 - first..] == Numbered(pushed)[cursor..];
    } else {
      AllAfter(ring, cursor);
    }
  }

  // ----- A client's whole stream -----

  /** The pushes between polls, in order: polls happen after each group. */
  function AllPushed(groups: seq<seq<string>>): seq<string> {
    if groups == [] then [] else AllPushed(groups[..|groups| - 1]) + groups[|groups| - 1]
  }

  /** The concatenated results of one poll after each group, for a client that connected when
      the given packets had been pushed. */
  function Received(before: seq<string>, groups: seq<seq<string>>): seq<Snapshot> {
    if groups == [] then []
    else
      var n := |groups| - 1;
      var seen := before + AllPushed(groups[..n]);
      Received(before, groups[..n]) + Polled(seen + groups[n], |seen|)
  }

  predicate SmallGroups(groups: seq<seq<string>>) {
    forall i :: 0 <= i < |groups| ==> |groups[i]| <= 200
  }

  /** Entry e is packet number e.sequence of all that was pushed, and came after the first `from`. */
  predicate IsPush(e: Snapshot, from: nat, all: seq<string>) {
    from < e.sequence <= |all| && e.content == all[e.sequence - 1]
  }

  predicate InOrder(out: seq<Snapshot>, from: nat, all: seq<string>) {
    && (forall i :: 0 <= i < |out| ==> IsPush(out[i], from, all))
    && forall i, j :: 0 <= i < j < |out| ==> out[i].sequence < out[j].sequence
  }

  /** Whatever falls between polls, the stream is in order without repeats, and every entry is a
      packet that was pushed, under its own number. */
  lemma {:induction false} StreamIsInOrder(before: seq<string>, groups: seq<seq<string>>)
    ensures InOrder(Received(before, groups), |before|, before + AllPushed(groups))
    decreases |groups|
  {
    if groups != [] {
      var n := |groups| - 1;
      StreamIsInOrder(before, groups[..n]);
      var seen := before + AllPushed(groups[..n]);
      assert before + AllPushed(groups) == seen + groups[n];
      OrderedAppend(Received(before, groups[..n]), Polled(seen + groups[n], |seen|), |before|, seen, groups[n]);
    }
  }

  lemma OrderedAppend(out: seq<Snapshot>, more: seq<Snapshot>, from: nat, seen: seq<string>, group: seq<string>)
    requires InOrder(out, from, seen) && from <= |seen| && more == Polled(seen + group, |seen|)
    ensures InOrder(out + more, from, seen + group)
  {
    forall i | 0 <= i < |out| ensures IsPush(out[i], from, seen + group) {
      assert IsPush(out[i], from, seen);
    }
    forall i | 0 <= i < |more| ensures IsPush(more[i], |seen|, seen + group) {}
  }

  /** With at most 200 packets between polls the client gets every packet exactly once, in order. */
  lemma {:induction false} StreamIsComplete(before: seq<string>, groups: seq<seq<string>>)
    requires SmallGroups(groups)
    ensures Received(before, groups) == Numbered(before + AllPushed(groups))[|before|..]
    decreases |groups|
  {
    if groups != [] {
      var n := |groups| - 1;
      StreamIsComplete(before, groups[..n]);
      var seen := before + AllPushed(groups[..n]);
      var all := seen + groups[n];
      assert before + AllPushed(groups) == all;
      assert Numbered(all)[|before|..] == Numbered(seen)[|before|..] + Numbered(all)[|seen|..];
    }
  }

  /** And only then: a longer gap makes the stream shorter. */
  lemma {:induction false} StreamIsCompleteIff(before: seq<string>, groups: seq<seq<string>>)
    ensures |Received(before, groups)| <= |AllPushed(groups)|
    ensures |Received(before, groups)| == |AllPushed(groups)| <==> SmallGroups(groups)
    ensures Received(before, groups) == Numbered(before + AllPushed(groups))[|before|..] <==> SmallGroups(groups)
    decreases |groups|
  {
    hide Numbered, Polled;
    if groups != [] {
      var n := |groups| - 1;
      StreamIsCompleteIff(before, groups[..n]);
      PolledLength(before + AllPushed(groups[..n]), groups[n]);
      assert SmallGroups(groups) <==> SmallGroups(groups[..n]) && |groups[n]| <= MAX_RECENT_PACKETS by {
        assert forall i :: 0 <= i < n ==> groups[..n][i] == groups[i];
      }
    }
    if SmallGroups(groups) {
      StreamIsComplete(before, groups);
    }
  }

  lemma PolledLength(seen: seq<string>, group: seq<string>)
    ensures |Polled(seen + group, |seen|)| == if |group| > MAX_RECENT_PACKETS then MAX_RECENT_PACKETS else |group|
  {
  }

  // ----- A client's whole session -----

  /** The initial ring, then the polls; the gap is what arrived between the ring and the cursor. */
  function Session(before: seq<string>, gap: seq<string>, groups: seq<seq<string>>): seq<Snapshot> {
    Newest(before) + Received(before + gap, groups)
  }

  /** A session is in order and without repeats, and every entry is a packet that was pushed. */
  lemma SessionIsInOrder(before: seq<string>, gap: seq<string>, groups: seq<seq<string>>)
    ensures InOrder(Session(before, gap, groups), 0, before + gap + AllPushed(groups))
  {
    hide Received, AllPushed;
    StreamIsInOrder(before + gap, groups);
    var all, later := before + gap + AllPushed(groups), Received(before + gap, groups);
    forall i | 0 <= i < |later| ensures IsPush(later[i], 0, all) {
      assert IsPush(later[i], |before + gap|, all);
    }
  }

  /** It is contiguous, from the oldest entry of the initial ring to the newest packet, exactly when nothing
      arrived between the ring and the cursor and at most 200 packets between polls. */
  lemma SessionIsContiguousIff(before: seq<string>, gap: seq<string>, groups: seq<seq<string>>)
    ensures Session(before, gap, groups)
         == Numbered(before + gap + AllPushed(groups))[|before| - |Newest(before)|..]
       <==> gap == [] && SmallGroups(groups)
  {
    hide Received, AllPushed, SmallGroups;
    StreamIsCompleteIff(before + gap, groups);
    var all, oldest := before + gap + AllPushed(groups), |before| - |Newest(before)|;
    if gap == [] && SmallGroups(groups) {
      assert before + gap == before;
      assert Numbered(all)[oldest..] == Newest(before) + Numbered(all)[|before|..];
    }
  }
}
