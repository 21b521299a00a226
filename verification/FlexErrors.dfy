/** What the FlexNet checksum (src/crc.rs) detects. Its byte step is not injective, and yet only seven
    differences of two adjacent bytes escape it. */
module FlexErrors {
  import opened Crc
  import opened Text

  /** How the difference of two FlexNet registers moves on over an equal byte. */
  function Drift(d: bv16): bv16 {
    Xor(Up8(d), ByteShift(POLY_CCITT, Down8(d)))
  }

  function Up8(x: bv16): bv16 {
    x << 8
  }

  function Drifts(d: bv16, n: nat): bv16
    decreases n
  {
    if n == 0 then d else Drift(Drifts(d, n - 1))
  }

  /** A word with the given high and low byte. */
  function Word(high: byte, low: byte): bv16 {
    ((high as bv16) << 8) ^ (low as bv16)
  }

  /** Two registers over two bytes: the difference of the bytes enters at the top. */
  lemma FlexByteDiff(x: bv16, y: bv16, a: byte, b: byte)
    ensures Xor(FlexByte(x, a), FlexByte(y, b)) == Drift(Xor(Xor(x, y), Word(a ^ b, 0)))
  {
    hide ByteShift;
    var i, j := (x >> 8) ^ (a as bv16), (y >> 8) ^ (b as bv16);
    ByteShiftXor(POLY_CCITT, i, j);
    DiffIndex(x, y, a, b);
    DiffParts(x, y, a, b, ByteShift(POLY_CCITT, i), ByteShift(POLY_CCITT, j));
  }

  lemma DiffIndex(x: bv16, y: bv16, a: byte, b: byte)
    ensures Xor((x >> 8) ^ (a as bv16), (y >> 8) ^ (b as bv16)) == Down8(Xor(Xor(x, y), Word(a ^ b, 0)))
  {
  }

  lemma DiffParts(x: bv16, y: bv16, a: byte, b: byte, s: bv16, t: bv16)
    ensures Xor((x << 8) ^ Xor(s, FLEX_MASK), (y << 8) ^ Xor(t, FLEX_MASK))
         == Xor(Up8(Xor(Xor(x, y), Word(a ^ b, 0))), Xor(s, t))
  {
  }

  lemma {:induction false} TailDiff(p: seq<byte>, q: seq<byte>, tail: seq<byte>)
    ensures Xor(Flex(p + tail), Flex(q + tail)) == Drifts(Xor(Flex(p), Flex(q)), |tail|)
    decreases |tail|
  {
    hide FlexByte, Drift, Xor, Word;
    if tail == [] {
      assert p + tail == p && q + tail == q;
    } else {
      var n := |tail| - 1;
      TailDiff(p, q, tail[..n]);
      FlexWalk(p + tail[..n], tail[n]);
      FlexWalk(q + tail[..n], tail[n]);
      assert p + tail == p + tail[..n] + [tail[n]] && q + tail == q + tail[..n] + [tail[n]];
      FlexByteDiff(Flex(p + tail[..n]), Flex(q + tail[..n]), tail[n], tail[n]);
      NoByteDiff(Xor(Flex(p + tail[..n]), Flex(q + tail[..n])), tail[n]);
    }
  }

  lemma NoByteDiff(d: bv16, b: byte)
    ensures Xor(d, Word(b ^ b, 0)) == d
  {
  }

  /** Eight steps with 0x8408 on a byte, in closed form. */
  function Folded(x: bv16): bv16 {
    var d := x ^ ((x << 4) & 0xFF);
    (d << 8) ^ (d << 3) ^ (d >> 4)
  }

  lemma FoldedIs(x: bv16)
    requires x < 256
    ensures ByteShift(POLY_CCITT, x) == Folded(x)
  {
  }

  function ClosedDrift(d: bv16): bv16 {
    Xor(Up8(d), Folded(Down8(d)))
  }

  lemma DriftIsClosed(d: bv16)
    ensures Drift(d) == ClosedDrift(d)
  {
    hide ByteShift, Folded, Xor, Up8, Down8;
    HighIsByte(d);
    FoldedIs(Down8(d));
  }

  lemma HighIsByte(d: bv16)
    ensures Down8(d) < 256
  {
  }

  /** What a step brings to 0, and to the words that further steps bring to 0. */
  lemma WhatDriftsToZero(d: bv16)
    ensures ClosedDrift(d) == 0 <==> d == 0 || d == 0x9185
    ensures ClosedDrift(d) == 0x9185 <==> d == 0x50c3 || d == 0xc146
    ensures ClosedDrift(d) == 0x50c3 <==> d == 0x29ec || d == 0xb869
    ensures ClosedDrift(d) == 0xc146 <==> d == 0x792f || d == 0xe8aa
    ensures ClosedDrift(d) != 0x29ec && ClosedDrift(d) != 0xb869
    ensures ClosedDrift(d) != 0x792f && ClosedDrift(d) != 0xe8aa
  {
  }

  /** The differences that n equal bytes bring to 0. */
  predicate Vanishes(d: bv16, n: nat) {
    || d == 0 || (n >= 1 && d == 0x9185) || (n >= 2 && (d == 0x50c3 || d == 0xc146))
    || (n >= 3 && (d == 0x29ec || d == 0xb869 || d == 0x792f || d == 0xe8aa))
  }

  lemma {:induction false} VanishesIff(d: bv16, n: nat)
    ensures Drifts(d, n) == 0 <==> Vanishes(d, n)
    decreases n
  {
    hide Drift, ClosedDrift;
    if n > 0 {
      DriftIsClosed(d);
      WhatDriftsToZero(d);
      DriftFirst(d, n - 1);
      VanishesIff(Drift(d), n - 1);
    }
  }

  lemma {:induction false} DriftFirst(d: bv16, n: nat)
    ensures Drifts(d, n + 1) == Drifts(Drift(d), n)
    decreases n
  {
    hide Drift;
    if n > 0 {
      DriftFirst(d, n - 1);
    }
  }

  /** FlexNet detects every single wrong byte, wherever it stands. */
  lemma FlexDetectsOneByte(before: seq<byte>, a: byte, b: byte, tail: seq<byte>)
    requires a != b
    ensures Flex(before + [a] + tail) != Flex(before + [b] + tail)
  {
    hide Flex, FlexByte, Drift, Drifts, Xor, Word, Vanishes;
    TailDiff(before + [a], before + [b], tail);
    OneByteDiff(before, a, b);
    DriftFirst(Word(a ^ b, 0), |tail|);
    VanishesIff(Word(a ^ b, 0), |tail| + 1);
    OneByteStays(a, b, |tail| + 1);
    XorNonZero(Flex(before + [a] + tail), Flex(before + [b] + tail));
  }

  lemma OneByteStays(a: byte, b: byte, n: nat)
    requires a != b
    ensures !Vanishes(Word(a ^ b, 0), n)
  {
    var d := Word(a ^ b, 0);
    assert d != 0 && d & 0xFF == 0;
  }

  lemma OneByteDiff(before: seq<byte>, a: byte, b: byte)
    ensures Xor(Flex(before + [a]), Flex(before + [b])) == Drift(Word(a ^ b, 0))
  {
    hide Flex, FlexByte, Drift, Xor, Word;
    var x := Flex(before);
    FlexWalk(before, a);
    FlexWalk(before, b);
    FlexByteDiff(x, x, a, b);
    XorZero(x);
    XorZero(Word(a ^ b, 0));
  }

  /** The two bytes of a pair error, high byte first. */
  function PairWord(a: seq<byte>, b: seq<byte>): bv16
    requires |a| == |b| == 2
  {
    Word(a[0] ^ b[0], a[1] ^ b[1])
  }

  /** Of the errors inside two adjacent bytes FlexNet misses exactly seven differences: three at any place,
      and four more in front of at least one further byte. */
  lemma FlexMissesPairIff(before: seq<byte>, a: seq<byte>, b: seq<byte>, tail: seq<byte>)
    requires |a| == |b| == 2 && a != b
    ensures Flex(before + a + tail) == Flex(before + b + tail) <==>
            var w := PairWord(a, b);
            || w == 0x9185 || w == 0x50c3 || w == 0xc146
            || (tail != [] && (w == 0x29ec || w == 0xb869 || w == 0x792f || w == 0xe8aa))
  {
    hide Flex, FlexByte, Drift, Drifts, Xor, Word;
    var w := PairWord(a, b);
    TailDiff(before + a, before + b, tail);
    PairDiff(before, a, b);
    DriftFirst(Drift(w), |tail|);
    DriftFirst(w, |tail| + 1);
    VanishesIff(w, |tail| + 2);
    PairDiffers(a, b);
    XorNonZero(Flex(before + a + tail), Flex(before + b + tail));
  }

  lemma PairDiffers(a: seq<byte>, b: seq<byte>)
    requires |a| == |b| == 2 && a != b
    ensures PairWord(a, b) != 0
  {
    if a[0] == b[0] {
      assert a == [b[0], a[1]] && b == [b[0], b[1]];
    }
    BytesDiffer(a[0], b[0], a[1], b[1]);
  }

  lemma BytesDiffer(a: byte, b: byte, c: byte, d: byte)
    ensures a != b || c != d ==> Word(a ^ b, c ^ d) != 0
  {
  }

  lemma PairDiff(before: seq<byte>, a: seq<byte>, b: seq<byte>)
    requires |a| == |b| == 2
    ensures Xor(Flex(before + a), Flex(before + b)) == Drift(Drift(PairWord(a, b)))
  {
    hide Flex, FlexByte, Drift, Xor, Word;
    var p, q := before + [a[0]], before + [b[0]];
    OneByteDiff(before, a[0], b[0]);
    assert before + a == p + [a[1]] && before + b == q + [b[1]];
    FlexWalk(p, a[1]);
    FlexWalk(q, b[1]);
    FlexByteDiff(Flex(p), Flex(q), a[1], b[1]);
    SecondByteJoins(a[0] ^ b[0], a[1] ^ b[1]);
  }

  lemma SecondByteJoins(high: byte, low: byte)
    ensures Xor(Drift(Word(high, 0)), Word(low, 0)) == Drift(Word(high, low))
  {
    hide ByteShift, Xor, Up8, Down8, Word;
    WordParts(high, low);
    var entry := ByteShift(POLY_CCITT, Down8(Word(high, low)));
    XorZero(entry);
    XorCommutes(entry, Word(low, 0));
  }

  lemma WordParts(high: byte, low: byte)
    ensures Down8(Word(high, low)) == Down8(Word(high, 0))
    ensures Up8(Word(high, 0)) == 0 && Up8(Word(high, low)) == Word(low, 0)
  {
  }
}
