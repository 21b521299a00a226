/** The three checksums (src/crc.rs): their tables against the shift register they abbreviate,
    the residues they leave, and the errors they detect. */
module Crc {
  import opened Text

  /** A lookup table of 256 entries, eight to a row as the source lays them out. */
  type Table = seq<seq<bv16>>

  /** CRC-16 (SMACK). */
  const CRC16_TABLE: Table := [
    [0x0000, 0xc0c1, 0xc181, 0x0140, 0xc301, 0x03c0, 0x0280, 0xc241],
    [0xc601, 0x06c0, 0x0780, 0xc741, 0x0500, 0xc5c1, 0xc481, 0x0440],
    [0xcc01, 0x0cc0, 0x0d80, 0xcd41, 0x0f00, 0xcfc1, 0xce81, 0x0e40],
    [0x0a00, 0xcac1, 0xcb81, 0x0b40, 0xc901, 0x09c0, 0x0880, 0xc841],
    [0xd801, 0x18c0, 0x1980, 0xd941, 0x1b00, 0xdbc1, 0xda81, 0x1a40],
    [0x1e00, 0xdec1, 0xdf81, 0x1f40, 0xdd01, 0x1dc0, 0x1c80, 0xdc41],
    [0x1400, 0xd4c1, 0xd581, 0x1540, 0xd701, 0x17c0, 0x1680, 0xd641],
    [0xd201, 0x12c0, 0x1380, 0xd341, 0x1100, 0xd1c1, 0xd081, 0x1040],
    [0xf001, 0x30c0, 0x3180, 0xf141, 0x3300, 0xf3c1, 0xf281, 0x3240],
    [0x3600, 0xf6c1, 0xf781, 0x3740, 0xf501, 0x35c0, 0x3480, 0xf441],
    [0x3c00, 0xfcc1, 0xfd81, 0x3d40, 0xff01, 0x3fc0, 0x3e80, 0xfe41],
    [0xfa01, 0x3ac0, 0x3b80, 0xfb41, 0x3900, 0xf9c1, 0xf881, 0x3840],
    [0x2800, 0xe8c1, 0xe981, 0x2940, 0xeb01, 0x2bc0, 0x2a80, 0xea41],
    [0xee01, 0x2ec0, 0x2f80, 0xef41, 0x2d00, 0xedc1, 0xec81, 0x2c40],
    [0xe401, 0x24c0, 0x2580, 0xe541, 0x2700, 0xe7c1, 0xe681, 0x2640],
    [0x2200, 0xe2c1, 0xe381, 0x2340, 0xe101, 0x21c0, 0x2080, 0xe041],
    [0xa001, 0x60c0, 0x6180, 0xa141, 0x6300, 0xa3c1, 0xa281, 0x6240],
    [0x6600, 0xa6c1, 0xa781, 0x6740, 0xa501, 0x65c0, 0x6480, 0xa441],
    [0x6c00, 0xacc1, 0xad81, 0x6d40, 0xaf01, 0x6fc0, 0x6e80, 0xae41],
    [0xaa01, 0x6ac0, 0x6b80, 0xab41, 0x6900, 0xa9c1, 0xa881, 0x6840],
    [0x7800, 0xb8c1, 0xb981, 0x7940, 0xbb01, 0x7bc0, 0x7a80, 0xba41],
    [0xbe01, 0x7ec0, 0x7f80, 0xbf41, 0x7d00, 0xbdc1, 0xbc81, 0x7c40],
    [0xb401, 0x74c0, 0x7580, 0xb541, 0x7700, 0xb7c1, 0xb681, 0x7640],
    [0x7200, 0xb2c1, 0xb381, 0x7340, 0xb101, 0x71c0, 0x7080, 0xb041],
    [0x5000, 0x90c1, 0x9181, 0x5140, 0x9301, 0x53c0, 0x5280, 0x9241],
    [0x9601, 0x56c0, 0x5780, 0x9741, 0x5500, 0x95c1, 0x9481, 0x5440],
    [0x9c01, 0x5cc0, 0x5d80, 0x9d41, 0x5f00, 0x9fc1, 0x9e81, 0x5e40],
    [0x5a00, 0x9ac1, 0x9b81, 0x5b40, 0x9901, 0x59c0, 0x5880, 0x9841],
    [0x8801, 0x48c0, 0x4980, 0x8941, 0x4b00, 0x8bc1, 0x8a81, 0x4a40],
    [0x4e00, 0x8ec1, 0x8f81, 0x4f40, 0x8d01, 0x4dc0, 0x4c80, 0x8c41],
    [0x4400, 0x84c1, 0x8581, 0x4540, 0x8701, 0x47c0, 0x4680, 0x8641],
    [0x8201, 0x42c0, 0x4380, 0x8341, 0x4100, 0x81c1, 0x8081, 0x4040]
  ]

  /** CRC-CCITT (AX.25 FCS). */
  const CRC_CCITT_TABLE: Table := [
    [0x0000, 0x1189, 0x2312, 0x329b, 0x4624, 0x57ad, 0x6536, 0x74bf],
    [0x8c48, 0x9dc1, 0xaf5a, 0xbed3, 0xca6c, 0xdbe5, 0xe97e, 0xf8f7],
    [0x1081, 0x0108, 0x3393, 0x221a, 0x56a5, 0x472c, 0x75b7, 0x643e],
    [0x9cc9, 0x8d40, 0xbfdb, 0xae52, 0xdaed, 0xcb64, 0xf9ff, 0xe876],
    [0x2102, 0x308b, 0x0210, 0x1399, 0x6726, 0x76af, 0x4434, 0x55bd],
    [0xad4a, 0xbcc3, 0x8e58, 0x9fd1, 0xeb6e, 0xfae7, 0xc87c, 0xd9f5],
    [0x3183, 0x200a, 0x1291, 0x0318, 0x77a7, 0x662e, 0x54b5, 0x453c],
    [0xbdcb, 0xac42, 0x9ed9, 0x8f50, 0xfbef, 0xea66, 0xd8fd, 0xc974],
    [0x4204, 0x538d, 0x6116, 0x709f, 0x0420, 0x15a9, 0x2732, 0x36bb],
    [0xce4c, 0xdfc5, 0xed5e, 0xfcd7, 0x8868, 0x99e1, 0xab7a, 0xbaf3],
    [0x5285, 0x430c, 0x7197, 0x601e, 0x14a1, 0x0528, 0x37b3, 0x263a],
    [0xdecd, 0xcf44, 0xfddf, 0xec56, 0x98e9, 0x8960, 0xbbfb, 0xaa72],
    [0x6306, 0x728f, 0x4014, 0x519d, 0x2522, 0x34ab, 0x0630, 0x17b9],
    [0xef4e, 0xfec7, 0xcc5c, 0xddd5, 0xa96a, 0xb8e3, 0x8a78, 0x9bf1],
    [0x7387, 0x620e, 0x5095, 0x411c, 0x35a3, 0x242a, 0x16b1, 0x0738],
    [0xffcf, 0xee46, 0xdcdd, 0xcd54, 0xb9eb, 0xa862, 0x9af9, 0x8b70],
    [0x8408, 0x9581, 0xa71a, 0xb693, 0xc22c, 0xd3a5, 0xe13e, 0xf0b7],
    [0x0840, 0x19c9, 0x2b52, 0x3adb, 0x4e64, 0x5fed, 0x6d76, 0x7cff],
    [0x9489, 0x8500, 0xb79b, 0xa612, 0xd2ad, 0xc324, 0xf1bf, 0xe036],
    [0x18c1, 0x0948, 0x3bd3, 0x2a5a, 0x5ee5, 0x4f6c, 0x7df7, 0x6c7e],
    [0xa50a, 0xb483, 0x8618, 0x9791, 0xe32e, 0xf2a7, 0xc03c, 0xd1b5],
    [0x2942, 0x38cb, 0x0a50, 0x1bd9, 0x6f66, 0x7eef, 0x4c74, 0x5dfd],
    [0xb58b, 0xa402, 0x9699, 0x8710, 0xf3af, 0xe226, 0xd0bd, 0xc134],
    [0x39c3, 0x284a, 0x1ad1, 0x0b58, 0x7fe7, 0x6e6e, 0x5cf5, 0x4d7c],
    [0xc60c, 0xd785, 0xe51e, 0xf497, 0x8028, 0x91a1, 0xa33a, 0xb2b3],
    [0x4a44, 0x5bcd, 0x6956, 0x78df, 0x0c60, 0x1de9, 0x2f72, 0x3efb],
    [0xd68d, 0xc704, 0xf59f, 0xe416, 0x90a9, 0x8120, 0xb3bb, 0xa232],
    [0x5ac5, 0x4b4c, 0x79d7, 0x685e, 0x1ce1, 0x0d68, 0x3ff3, 0x2e7a],
    [0xe70e, 0xf687, 0xc41c, 0xd595, 0xa12a, 0xb0a3, 0x8238, 0x93b1],
    [0x6b46, 0x7acf, 0x4854, 0x59dd, 0x2d62, 0x3ceb, 0x0e70, 0x1ff9],
    [0xf78f, 0xe606, 0xd49d, 0xc514, 0xb1ab, 0xa022, 0x92b9, 0x8330],
    [0x7bc7, 0x6a4e, 0x58d5, 0x495c, 0x3de3, 0x2c6a, 0x1ef1, 0x0f78]
  ]

  /** FlexNet. */
  const CRC_FLEX_TABLE: Table := [
    [0x0f87, 0x1e0e, 0x2c95, 0x3d1c, 0x49a3, 0x582a, 0x6ab1, 0x7b38],
    [0x83cf, 0x9246, 0xa0dd, 0xb154, 0xc5eb, 0xd462, 0xe6f9, 0xf770],
    [0x1f06, 0x0e8f, 0x3c14, 0x2d9d, 0x5922, 0x48ab, 0x7a30, 0x6bb9],
    [0x934e, 0x82c7, 0xb05c, 0xa1d5, 0xd56a, 0xc4e3, 0xf678, 0xe7f1],
    [0x2e85, 0x3f0c, 0x0d97, 0x1c1e, 0x68a1, 0x7928, 0x4bb3, 0x5a3a],
    [0xa2cd, 0xb344, 0x81df, 0x9056, 0xe4e9, 0xf560, 0xc7fb, 0xd672],
    [0x3e04, 0x2f8d, 0x1d16, 0x0c9f, 0x7820, 0x69a9, 0x5b32, 0x4abb],
    [0xb24c, 0xa3c5, 0x915e, 0x80d7, 0xf468, 0xe5e1, 0xd77a, 0xc6f3],
    [0x4d83, 0x5c0a, 0x6e91, 0x7f18, 0x0ba7, 0x1a2e, 0x28b5, 0x393c],
    [0xc1cb, 0xd042, 0xe2d9, 0xf350, 0x87ef, 0x9666, 0xa4fd, 0xb574],
    [0x5d02, 0x4c8b, 0x7e10, 0x6f99, 0x1b26, 0x0aaf, 0x3834, 0x29bd],
    [0xd14a, 0xc0c3, 0xf258, 0xe3d1, 0x976e, 0x86e7, 0xb47c, 0xa5f5],
    [0x6c81, 0x7d08, 0x4f93, 0x5e1a, 0x2aa5, 0x3b2c, 0x09b7, 0x183e],
    [0xe0c9, 0xf140, 0xc3db, 0xd252, 0xa6ed, 0xb764, 0x85ff, 0x9476],
    [0x7c00, 0x6d89, 0x5f12, 0x4e9b, 0x3a24, 0x2bad, 0x1936, 0x08bf],
    [0xf048, 0xe1c1, 0xd35a, 0xc2d3, 0xb66c, 0xa7e5, 0x957e, 0x84f7],
    [0x8b8f, 0x9a06, 0xa89d, 0xb914, 0xcdab, 0xdc22, 0xeeb9, 0xff30],
    [0x07c7, 0x164e, 0x24d5, 0x355c, 0x41e3, 0x506a, 0x62f1, 0x7378],
    [0x9b0e, 0x8a87, 0xb81c, 0xa995, 0xdd2a, 0xcca3, 0xfe38, 0xefb1],
    [0x1746, 0x06cf, 0x3454, 0x25dd, 0x5162, 0x40eb, 0x7270, 0x63f9],
    [0xaa8d, 0xbb04, 0x899f, 0x9816, 0xeca9, 0xfd20, 0xcfbb, 0xde32],
    [0x26c5, 0x374c, 0x05d7, 0x145e, 0x60e1, 0x7168, 0x43f3, 0x527a],
    [0xba0c, 0xab85, 0x991e, 0x8897, 0xfc28, 0xeda1, 0xdf3a, 0xceb3],
    [0x3644, 0x27cd, 0x1556, 0x04df, 0x7060, 0x61e9, 0x5372, 0x42fb],
    [0xc98b, 0xd802, 0xea99, 0xfb10, 0x8faf, 0x9e26, 0xacbd, 0xbd34],
    [0x45c3, 0x544a, 0x66d1, 0x7758, 0x03e7, 0x126e, 0x20f5, 0x317c],
    [0xd90a, 0xc883, 0xfa18, 0xeb91, 0x9f2e, 0x8ea7, 0xbc3c, 0xadb5],
    [0x5542, 0x44cb, 0x7650, 0x67d9, 0x1366, 0x02ef, 0x3074, 0x21fd],
    [0xe889, 0xf900, 0xcb9b, 0xda12, 0xaead, 0xbf24, 0x8dbf, 0x9c36],
    [0x64c1, 0x7548, 0x47d3, 0x565a, 0x22e5, 0x336c, 0x01f7, 0x107e],
    [0xf808, 0xe981, 0xdb1a, 0xca93, 0xbe2c, 0xafa5, 0x9d3e, 0x8cb7],
    [0x7440, 0x65c9, 0x5752, 0x46db, 0x3264, 0x23ed, 0x1176, 0x00ff]
  ]

  predicate HasEntry(t: Table, idx: bv16) {
    idx < 256 && |t| == 32 && |t[(idx >> 3) as int]| == 8
  }

  /** The entry with index idx. */
  function Lookup(t: Table, idx: bv16): bv16
    requires HasEntry(t, idx)
  {
    t[(idx >> 3) as int][(idx & 7) as int]
  }

  const POLY_CRC16: bv16 := 0xA001
  const POLY_CCITT: bv16 := 0x8408
  const FLEX_MASK: bv16 := 0x0F87

  // ----- Words -----

  function Xor(x: bv16, y: bv16): bv16 {
    x ^ y
  }

  function Half(x: bv16): bv16 {
    x >> 1
  }

  predicate Odd(x: bv16) {
    x & 1 == 1
  }

  lemma WordsXor(x: bv16, y: bv16)
    ensures Half(Xor(x, y)) == Xor(Half(x), Half(y))
    ensures Odd(Xor(x, y)) <==> Odd(x) != Odd(y)
  {
  }

  lemma XorCommutes(u: bv16, v: bv16)
    ensures Xor(u, v) == Xor(v, u)
  {
  }

  lemma XorAssociates(u: bv16, v: bv16, p: bv16)
    ensures Xor(Xor(u, v), p) == Xor(u, Xor(v, p))
  {
  }

  lemma XorMix(u: bv16, v: bv16, p: bv16)
    ensures Xor(u, v) == Xor(Xor(u, p), Xor(v, p))
    ensures Xor(Xor(u, v), p) == Xor(Xor(u, p), v)
    ensures Xor(Xor(u, v), p) == Xor(u, Xor(v, p))
  {
    XorZero(p);
    XorZero(v);
    hide Xor;
    XorAssociates(u, v, p);
    XorCommutes(v, p);
    XorAssociates(u, p, v);
    XorAssociates(u, p, Xor(v, p));
    XorAssociates(p, p, v);
  }

  lemma XorZero(x: bv16)
    ensures Xor(x, 0) == x && Xor(0, x) == x && Xor(x, x) == 0
  {
  }

  lemma XorNonZero(x: bv16, y: bv16)
    ensures Xor(x, y) != 0 <==> x != y
  {
    XorZero(x);
    XorZero(y);
    hide Xor;
    XorAssociates(x, x, y);
  }

  // ----- The shift register -----

  /** One step of a reflected shift register that takes in one message bit. */
  function Step(poly: bv16, crc: bv16, bit: bool): bv16 {
    if Odd(crc) != bit then Xor(Half(crc), poly) else Half(crc)
  }

  /** The register after a bit sequence. */
  function Register(poly: bv16, crc: bv16, bits: seq<bool>): bv16
    decreases |bits|
  {
    if bits == [] then crc else Register(poly, Step(poly, crc, bits[0]), bits[1..])
  }

  /** The n low bits of a word, lowest first. */
  function LowBits(w: bv16, n: nat): (bits: seq<bool>)
    ensures |bits| == n
    decreases n
  {
    if n == 0 then [] else [Odd(w)] + LowBits(Half(w), n - 1)
  }

  /** The bits of a message as they enter the register: each byte from its low bit up. */
  function MessageBits(data: seq<byte>): (bits: seq<bool>)
    ensures |bits| == 8 * |data|
  {
    if data == [] then [] else MessageBits(data[..|data| - 1]) + LowBits(data[|data| - 1] as bv16, 8)
  }

  /** The bit-by-bit checksum of a message. */
  function Lfsr(poly: bv16, init: bv16, data: seq<byte>): bv16 {
    Register(poly, init, MessageBits(data))
  }

  lemma {:induction false} RegisterConcat(poly: bv16, crc: bv16, a: seq<bool>, b: seq<bool>)
    ensures Register(poly, crc, a + b) == Register(poly, Register(poly, crc, a), b)
    decreases |a|
  {
    hide Step;
    if a == [] {
      assert a + b == b;
    } else {
      RegisterConcat(poly, Step(poly, crc, a[0]), a[1..], b);
      assert (a + b)[1..] == a[1..] + b;
    }
  }

  lemma LfsrSnoc(poly: bv16, init: bv16, data: seq<byte>, b: byte)
    ensures Lfsr(poly, init, data + [b]) == Register(poly, Lfsr(poly, init, data), LowBits(b as bv16, 8))
  {
    hide Step, LowBits;
    assert (data + [b])[..|data|] == data;
    RegisterConcat(poly, init, MessageBits(data), LowBits(b as bv16, 8));
  }

  // ----- The register is linear -----

  lemma StepXor(poly: bv16, x: bv16, y: bv16, a: bool, b: bool)
    ensures Step(poly, Xor(x, y), a != b) == Xor(Step(poly, x, a), Step(poly, y, b))
  {
    hide Xor, Half, Odd;
    WordsXor(x, y);
    XorMix(Half(x), Half(y), poly);
  }

  function Zeros(n: nat): (bits: seq<bool>)
    ensures |bits| == n
  {
    if n == 0 then [] else [false] + Zeros(n - 1)
  }

  lemma {:induction false} RegisterXor(poly: bv16, x: bv16, y: bv16, n: nat)
    ensures Register(poly, Xor(x, y), Zeros(n)) == Xor(Register(poly, x, Zeros(n)), Register(poly, y, Zeros(n)))
    decreases n
  {
    hide Step, Xor;
    if n > 0 {
      StepXor(poly, x, y, false, false);
      RegisterXor(poly, Step(poly, x, false), Step(poly, y, false), n - 1);
      assert Zeros(n)[1..] == Zeros(n - 1);
    }
  }

  function ShiftDown(w: bv16, n: nat): bv16
    decreases n
  {
    if n == 0 then w else ShiftDown(Half(w), n - 1)
  }

  lemma OwnBitStep(poly: bv16, w: bv16)
    ensures Step(poly, w, Odd(w)) == Half(w)
  {
  }

  /** Feeding a register its own low bits only shifts it. */
  lemma {:induction false} OwnBitsShift(poly: bv16, w: bv16, n: nat)
    ensures Register(poly, w, LowBits(w, n)) == ShiftDown(w, n)
    decreases n
  {
    hide Step, Half, Odd;
    if n > 0 {
      OwnBitStep(poly, w);
      OwnBitsShift(poly, Half(w), n - 1);
      assert LowBits(w, n)[1..] == LowBits(Half(w), n - 1);
    }
  }

  /** Message bits may be xored into the register beforehand. */
  lemma {:induction false} BitsAhead(poly: bv16, s: bv16, w: bv16, n: nat)
    ensures Register(poly, Xor(s, w), Zeros(n)) == Xor(Register(poly, s, LowBits(w, n)), ShiftDown(w, n))
    decreases n
  {
    hide Step, Xor, Half, Odd;
    if n > 0 {
      StepXor(poly, s, w, Odd(w), Odd(w));
      OwnBitStep(poly, w);
      BitsAhead(poly, Step(poly, s, Odd(w)), Half(w), n - 1);
      assert LowBits(w, n)[1..] == LowBits(Half(w), n - 1) && Zeros(n)[1..] == Zeros(n - 1);
    }
  }

  lemma EightShifts(w: bv16)
    ensures ShiftDown(w, 8) == w >> 8
  {
  }

  lemma NoLowBits(w: bv16)
    requires w & 0xFF == 0
    ensures LowBits(w, 8) == Zeros(8)
  {
  }

  /** Eight steps without message bits. */
  function ByteShift(poly: bv16, x: bv16): bv16 {
    var x2 := Step(poly, Step(poly, x, false), false);
    var x4 := Step(poly, Step(poly, x2, false), false);
    var x6 := Step(poly, Step(poly, x4, false), false);
    Step(poly, Step(poly, x6, false), false)
  }

  lemma ByteShiftIsRegister(poly: bv16, x: bv16)
    ensures ByteShift(poly, x) == Register(poly, x, Zeros(8))
  {
    hide Step;
    var x1 := Step(poly, x, false);
    var x2 := Step(poly, x1, false);
    var x3 := Step(poly, x2, false);
    var x4 := Step(poly, x3, false);
    var x5 := Step(poly, x4, false);
    var x6 := Step(poly, x5, false);
    var x7 := Step(poly, x6, false);
    assert Register(poly, x6, Zeros(2)) == Register(poly, x7, Zeros(1));
    assert Register(poly, x4, Zeros(4)) == Register(poly, x5, Zeros(3));
    assert Register(poly, x2, Zeros(6)) == Register(poly, x3, Zeros(5));
  }

  lemma ByteShiftXor(poly: bv16, x: bv16, y: bv16)
    ensures ByteShift(poly, Xor(x, y)) == Xor(ByteShift(poly, x), ByteShift(poly, y))
  {
    hide *;
    RegisterXor(poly, x, y, 8);
    ByteShiftIsRegister(poly, Xor(x, y));
    ByteShiftIsRegister(poly, x);
    ByteShiftIsRegister(poly, y);
  }

  function High(x: bv16): bv16 {
    x & 0xFF00
  }

  function Low(x: bv16): bv16 {
    x & 0xFF
  }

  function Down8(x: bv16): bv16 {
    x >> 8
  }

  lemma SplitWord(x: bv16)
    ensures x == Xor(High(x), Low(x)) && High(x) & 0xFF == 0 && Down8(High(x)) == Down8(x)
  {
  }

  lemma ByteShiftHigh(poly: bv16, x: bv16)
    ensures ByteShift(poly, High(x)) == Down8(x)
  {
    hide ByteShift, Step, Register;
    SplitWord(x);
    NoLowBits(High(x));
    ByteShiftIsRegister(poly, High(x));
    OwnBitsShift(poly, High(x), 8);
    EightShifts(High(x));
  }

  /** Only the low byte meets the polynomial; the high byte just moves down. */
  lemma ByteShiftSplit(poly: bv16, x: bv16)
    ensures ByteShift(poly, x) == Xor(Down8(x), ByteShift(poly, Low(x)))
  {
    hide *;
    SplitWord(x);
    ByteShiftXor(poly, High(x), Low(x));
    ByteShiftHigh(poly, x);
  }

  function Index(crc: bv16, b: byte): bv16 {
    Low(Xor(crc, b as bv16))
  }

  lemma ByteWord(crc: bv16, b: byte)
    ensures (b as bv16) >> 8 == 0 && Down8(Xor(crc, b as bv16)) == Down8(crc)
  {
  }

  /** A byte of the message, in the form the table-driven loops compute. */
  lemma ByteByTable(poly: bv16, crc: bv16, b: byte)
    ensures Register(poly, crc, LowBits(b as bv16, 8)) == Xor(Down8(crc), ByteShift(poly, Index(crc, b)))
  {
    hide Register, LowBits, ByteShift, Xor, Down8, ShiftDown, Low;
    var w := b as bv16;
    BitsAhead(poly, crc, w, 8);
    EightShifts(w);
    ByteWord(crc, b);
    XorZero(Register(poly, crc, LowBits(w, 8)));
    ByteShiftIsRegister(poly, Xor(crc, w));
    ByteShiftSplit(poly, Xor(crc, w));
  }

  // ----- The tables -----

  /** Eight consecutive entries, from the index base up. */
  predicate RowIs(poly: bv16, mask: bv16, row: seq<bv16>, base: bv16) {
    var r := Xor(ByteShift(poly, base), mask);
    && |row| == 8
    && row[0] == r && row[1] == Xor(r, ByteShift(poly, 1))
    && row[2] == Xor(r, ByteShift(poly, 2)) && row[3] == Xor(r, ByteShift(poly, 3))
    && row[4] == Xor(r, ByteShift(poly, 4)) && row[5] == Xor(r, ByteShift(poly, 5))
    && row[6] == Xor(r, ByteShift(poly, 6)) && row[7] == Xor(r, ByteShift(poly, 7))
  }

  lemma EntryInRow(t: Table, poly: bv16, mask: bv16, idx: bv16)
    requires HasEntry(t, idx)
    requires RowIs(poly, mask, t[(idx >> 3) as int], (idx >> 3) << 3)
    ensures Lookup(t, idx) == Xor(ByteShift(poly, idx), mask)
  {
    hide ByteShift, Xor;
    var base, c := (idx >> 3) << 3, idx & 7;
    IndexParts(idx);
    ByteShiftXor(poly, base, c);
    XorMix(ByteShift(poly, base), ByteShift(poly, c), mask);
    XorZero(base);
  }

  lemma IndexParts(idx: bv16)
    ensures var c := idx & 7;
            && idx == Xor((idx >> 3) << 3, c)
            && (c == 0 || c == 1 || c == 2 || c == 3 || c == 4 || c == 5 || c == 6 || c == 7)
  {
  }

  /** Eight steps of the register on 1 to 7, and on the multiples of 8. */
  lemma Crc16Low()
    ensures ByteShift(POLY_CRC16, 1) == 0xc0c1 && ByteShift(POLY_CRC16, 2) == 0xc181
            && ByteShift(POLY_CRC16, 3) == 0x0140 && ByteShift(POLY_CRC16, 4) == 0xc301
            && ByteShift(POLY_CRC16, 5) == 0x03c0 && ByteShift(POLY_CRC16, 6) == 0x0280
            && ByteShift(POLY_CRC16, 7) == 0xc241
  {
  }

  lemma Crc16Heads()
    ensures ByteShift(POLY_CRC16, 0) == 0x0000 && ByteShift(POLY_CRC16, 8) == 0xc601
            && ByteShift(POLY_CRC16, 16) == 0xcc01 && ByteShift(POLY_CRC16, 24) == 0x0a00
            && ByteShift(POLY_CRC16, 32) == 0xd801 && ByteShift(POLY_CRC16, 40) == 0x1e00
            && ByteShift(POLY_CRC16, 48) == 0x1400 && ByteShift(POLY_CRC16, 56) == 0xd201
            && ByteShift(POLY_CRC16, 64) == 0xf001 && ByteShift(POLY_CRC16, 72) == 0x3600
            && ByteShift(POLY_CRC16, 80) == 0x3c00 && ByteShift(POLY_CRC16, 88) == 0xfa01
            && ByteShift(POLY_CRC16, 96) == 0x2800 && ByteShift(POLY_CRC16, 104) == 0xee01
            && ByteShift(POLY_CRC16, 112) == 0xe401 && ByteShift(POLY_CRC16, 120) == 0x2200
            && ByteShift(POLY_CRC16, 128) == 0xa001 && ByteShift(POLY_CRC16, 136) == 0x6600
            && ByteShift(POLY_CRC16, 144) == 0x6c00 && ByteShift(POLY_CRC16, 152) == 0xaa01
            && ByteShift(POLY_CRC16, 160) == 0x7800 && ByteShift(POLY_CRC16, 168) == 0xbe01
            && ByteShift(POLY_CRC16, 176) == 0xb401 && ByteShift(POLY_CRC16, 184) == 0x7200
            && ByteShift(POLY_CRC16, 192) == 0x5000 && ByteShift(POLY_CRC16, 200) == 0x9601
            && ByteShift(POLY_CRC16, 208) == 0x9c01 && ByteShift(POLY_CRC16, 216) == 0x5a00
            && ByteShift(POLY_CRC16, 224) == 0x8801 && ByteShift(POLY_CRC16, 232) == 0x4e00
            && ByteShift(POLY_CRC16, 240) == 0x4400 && ByteShift(POLY_CRC16, 248) == 0x8201
  {
  }

  lemma Crc16Rows(row: bv16)
    requires row < 32
    ensures |CRC16_TABLE| == 32 && RowIs(POLY_CRC16, 0, CRC16_TABLE[row as int], row << 3)
  {
    hide ByteShift;
    Crc16Low();
    Crc16Heads();
  }

  /** Every entry of the table is eight shift steps of its index. */
  lemma Crc16Table(idx: bv16)
    requires idx < 256
    ensures HasEntry(CRC16_TABLE, idx) && Lookup(CRC16_TABLE, idx) == Xor(ByteShift(POLY_CRC16, idx), 0)
  {
    hide ByteShift, Xor;
    Crc16Rows(idx >> 3);
    EntryInRow(CRC16_TABLE, POLY_CRC16, 0, idx);
  }

  /** Eight steps of the register on 1 to 7, and on the multiples of 8. */
  lemma CcittLow()
    ensures ByteShift(POLY_CCITT, 1) == 0x1189 && ByteShift(POLY_CCITT, 2) == 0x2312
            && ByteShift(POLY_CCITT, 3) == 0x329b && ByteShift(POLY_CCITT, 4) == 0x4624
            && ByteShift(POLY_CCITT, 5) == 0x57ad && ByteShift(POLY_CCITT, 6) == 0x6536
            && ByteShift(POLY_CCITT, 7) == 0x74bf
  {
  }

  lemma CcittHeads()
    ensures ByteShift(POLY_CCITT, 0) == 0x0000 && ByteShift(POLY_CCITT, 8) == 0x8c48
            && ByteShift(POLY_CCITT, 16) == 0x1081 && ByteShift(POLY_CCITT, 24) == 0x9cc9
            && ByteShift(POLY_CCITT, 32) == 0x2102 && ByteShift(POLY_CCITT, 40) == 0xad4a
            && ByteShift(POLY_CCITT, 48) == 0x3183 && ByteShift(POLY_CCITT, 56) == 0xbdcb
            && ByteShift(POLY_CCITT, 64) == 0x4204 && ByteShift(POLY_CCITT, 72) == 0xce4c
            && ByteShift(POLY_CCITT, 80) == 0x5285 && ByteShift(POLY_CCITT, 88) == 0xdecd
            && ByteShift(POLY_CCITT, 96) == 0x6306 && ByteShift(POLY_CCITT, 104) == 0xef4e
            && ByteShift(POLY_CCITT, 112) == 0x7387 && ByteShift(POLY_CCITT, 120) == 0xffcf
            && ByteShift(POLY_CCITT, 128) == 0x8408 && ByteShift(POLY_CCITT, 136) == 0x0840
            && ByteShift(POLY_CCITT, 144) == 0x9489 && ByteShift(POLY_CCITT, 152) == 0x18c1
            && ByteShift(POLY_CCITT, 160) == 0xa50a && ByteShift(POLY_CCITT, 168) == 0x2942
            && ByteShift(POLY_CCITT, 176) == 0xb58b && ByteShift(POLY_CCITT, 184) == 0x39c3
            && ByteShift(POLY_CCITT, 192) == 0xc60c && ByteShift(POLY_CCITT, 200) == 0x4a44
            && ByteShift(POLY_CCITT, 208) == 0xd68d && ByteShift(POLY_CCITT, 216) == 0x5ac5
            && ByteShift(POLY_CCITT, 224) == 0xe70e && ByteShift(POLY_CCITT, 232) == 0x6b46
            && ByteShift(POLY_CCITT, 240) == 0xf78f && ByteShift(POLY_CCITT, 248) == 0x7bc7
  {
  }

  lemma CcittRows(row: bv16)
    requires row < 32
    ensures |CRC_CCITT_TABLE| == 32 && RowIs(POLY_CCITT, 0, CRC_CCITT_TABLE[row as int], row << 3)
  {
    hide ByteShift;
    CcittLow();
    CcittHeads();
  }

  /** Every entry of the table is eight shift steps of its index. */
  lemma CcittTable(idx: bv16)
    requires idx < 256
    ensures HasEntry(CRC_CCITT_TABLE, idx) && Lookup(CRC_CCITT_TABLE, idx) == Xor(ByteShift(POLY_CCITT, idx), 0)
  {
    hide ByteShift, Xor;
    CcittRows(idx >> 3);
    EntryInRow(CRC_CCITT_TABLE, POLY_CCITT, 0, idx);
  }

  lemma FlexRows(row: bv16)
    requires row < 32
    ensures |CRC_FLEX_TABLE| == 32 && RowIs(POLY_CCITT, FLEX_MASK, CRC_FLEX_TABLE[row as int], row << 3)
  {
    hide ByteShift;
    CcittLow();
    CcittHeads();
  }

  /** Every entry of the table is eight shift steps of its index, xored with one constant. */
  lemma FlexTable(idx: bv16)
    requires idx < 256
    ensures HasEntry(CRC_FLEX_TABLE, idx) && Lookup(CRC_FLEX_TABLE, idx) == Xor(ByteShift(POLY_CCITT, idx), FLEX_MASK)
  {
    hide ByteShift, Xor;
    FlexRows(idx >> 3);
    EntryInRow(CRC_FLEX_TABLE, POLY_CCITT, FLEX_MASK, idx);
  }

  // ----- The functions -----

  /** CRC-16 of a buffer: the table walk is the shift register with polynomial 0xA001 from 0. */
  method Crc16(data: seq<byte>) returns (crc: bv16)
    ensures crc == Lfsr(POLY_CRC16, 0, data)
  {
    hide LowBits, Step;
    crc := 0;
    for i := 0 to |data|
      invariant crc == Lfsr(POLY_CRC16, 0, data[..i])
    {
      var next := TableStep(CRC16_TABLE, POLY_CRC16, crc, data[i]);
      assert data[..i + 1] == data[..i] + [data[i]];
      LfsrSnoc(POLY_CRC16, 0, data[..i], data[i]);
      crc := next;
    }
    assert data[..|data|] == data;
  }

  /** True when the checksum of the whole buffer, its two check bytes included, is zero. */
  method CheckCrc16(data: seq<byte>) returns (ok: bool)
    ensures ok <==> Lfsr(POLY_CRC16, 0, data) == 0
  {
    var crc := Crc16(data);
    ok := crc == 0;
  }

  /** CRC-CCITT from any initial value: the shift register with polynomial 0x8408. */
  method CrcCcitt(init: bv16, data: seq<byte>) returns (crc: bv16)
    ensures crc == Lfsr(POLY_CCITT, init, data)
  {
    hide LowBits, Step;
    crc := init;
    for i := 0 to |data|
      invariant crc == Lfsr(POLY_CCITT, init, data[..i])
    {
      var next := TableStep(CRC_CCITT_TABLE, POLY_CCITT, crc, data[i]);
      assert data[..i + 1] == data[..i] + [data[i]];
      LfsrSnoc(POLY_CCITT, init, data[..i], data[i]);
      crc := next;
    }
    assert data[..|data|] == data;
  }

  predicate IsReflected(t: Table, poly: bv16) {
    (t == CRC16_TABLE && poly == POLY_CRC16) || (t == CRC_CCITT_TABLE && poly == POLY_CCITT)
  }

  /** The loop body the two reflected checksums share. */
  method TableStep(t: Table, poly: bv16, crc: bv16, b: byte) returns (next: bv16)
    requires IsReflected(t, poly)
    ensures next == Register(poly, crc, LowBits(b as bv16, 8))
  {
    hide *;
    var idx := (crc ^ (b as bv16)) & 0xFF;
    IndexIs(crc, b);
    TableEntry(t, poly, idx);
    ByteByTable(poly, crc, b);
    var entry := Lookup(t, idx);
    DownXor(crc, entry);
    next := (crc >> 8) ^ entry;
  }

  lemma IndexIs(crc: bv16, b: byte)
    ensures (crc ^ (b as bv16)) & 0xFF == Index(crc, b) && Index(crc, b) < 256
  {
  }

  lemma DownXor(crc: bv16, entry: bv16)
    ensures (crc >> 8) ^ entry == Xor(Down8(crc), entry)
  {
  }

  lemma TableEntry(t: Table, poly: bv16, idx: bv16)
    requires IsReflected(t, poly) && idx < 256
    ensures HasEntry(t, idx) && Lookup(t, idx) == ByteShift(poly, idx)
  {
    hide ByteShift, Xor;
    if t == CRC16_TABLE && poly == POLY_CRC16 {
      Crc16Table(idx);
    } else {
      CcittTable(idx);
    }
    XorZero(ByteShift(poly, idx));
  }

  /** FlexNet takes its index from the high byte and shifts the register up, although its
      table belongs to the reflected polynomial 0x8408. */
  function FlexByte(crc: bv16, b: byte): bv16 {
    (crc << 8) ^ Xor(ByteShift(POLY_CCITT, (crc >> 8) ^ (b as bv16)), FLEX_MASK)
  }

  function Flex(data: seq<byte>): bv16 {
    if data == [] then 0xFFFF else FlexByte(Flex(data[..|data| - 1]), data[|data| - 1])
  }

  method CrcFlex(data: seq<byte>) returns (crc: bv16)
    ensures crc == Flex(data)
  {
    hide FlexByte;
    crc := 0xFFFF;
    for i := 0 to |data|
      invariant crc == Flex(data[..i])
    {
      var next := FlexStep(crc, data[i]);
      assert data[..i + 1][..i] == data[..i];
      crc := next;
    }
    assert data[..|data|] == data;
  }

  method FlexStep(crc: bv16, b: byte) returns (next: bv16)
    ensures next == FlexByte(crc, b)
  {
    hide ByteShift, Xor, HasEntry;
    var idx := (crc >> 8) ^ (b as bv16);
    FlexIndex(crc, b);
    FlexTable(idx);
    next := (crc << 8) ^ Lookup(CRC_FLEX_TABLE, idx);
  }

  /** FlexNet starts from all ones, and goes on byte by byte. */
  lemma FlexWalk(data: seq<byte>, b: byte)
    ensures Flex([]) == 0xFFFF && Flex(data + [b]) == FlexByte(Flex(data), b)
  {
    hide FlexByte;
    assert (data + [b])[..|data|] == data;
  }

  /** Each byte goes through the table, indexed by the high byte of the register. */
  lemma FlexByteByTable(crc: bv16, b: byte)
    ensures var idx := (crc >> 8) ^ (b as bv16);
            HasEntry(CRC_FLEX_TABLE, idx) && FlexByte(crc, b) == (crc << 8) ^ Lookup(CRC_FLEX_TABLE, idx)
  {
    hide ByteShift, Xor, HasEntry, Lookup;
    FlexIndex(crc, b);
    FlexTable((crc >> 8) ^ (b as bv16));
  }

  lemma FlexIndex(crc: bv16, b: byte)
    ensures (crc >> 8) ^ (b as bv16) < 256
  {
  }

  // ----- Residues -----

  function LowByte(x: bv16): byte {
    (x & 0xFF) as byte
  }

  function HighByte(x: bv16): byte {
    (x >> 8) as byte
  }

  lemma LowByteBits(x: bv16)
    ensures LowBits(LowByte(x) as bv16, 8) == LowBits(x, 8)
    ensures HighByte(x) as bv16 == x >> 8 && (x >> 8) >> 8 == 0
  {
  }

  /** A message followed by its CRC, low byte first, leaves 0 in the register. */
  lemma ResidueIsZero(poly: bv16, init: bv16, data: seq<byte>)
    ensures var crc := Lfsr(poly, init, data);
            Lfsr(poly, init, data + [LowByte(crc)] + [HighByte(crc)]) == 0
  {
    hide *;
    var crc := Lfsr(poly, init, data);
    LfsrSnoc(poly, init, data, LowByte(crc));
    LfsrSnoc(poly, init, data + [LowByte(crc)], HighByte(crc));
    LowByteBits(crc);
    OwnBitsShift(poly, crc, 8);
    OwnBitsShift(poly, crc >> 8, 8);
    EightShifts(crc);
    EightShifts(crc >> 8);
  }

  /** A message followed by its FlexNet checksum, high byte first, leaves 0x7070. */
  lemma FlexResidue(data: seq<byte>)
    ensures Flex(data + [HighByte(Flex(data))] + [LowByte(Flex(data))]) == 0x7070
  {
    hide FlexByte, HighByte, LowByte;
    var crc := Flex(data);
    var one := data + [HighByte(crc)];
    var two := one + [LowByte(crc)];
    assert one[..|data|] == data && two[..|one|] == one;
    assert Flex(one) == FlexByte(crc, HighByte(crc));
    assert Flex(two) == FlexByte(Flex(one), LowByte(crc));
    FlexFirst(crc);
    FlexSecond(crc, Flex(one));
  }

  lemma FlexFirst(crc: bv16)
    ensures FlexByte(crc, HighByte(crc)) == (crc << 8) ^ FLEX_MASK
  {
    FlexIndexZero(crc);
    assert ByteShift(POLY_CCITT, 0) == 0;
    XorZero(FLEX_MASK);
  }

  lemma FlexIndexZero(crc: bv16)
    ensures (crc >> 8) ^ (HighByte(crc) as bv16) == 0
  {
  }

  lemma FlexSecond(crc: bv16, next: bv16)
    requires next == (crc << 8) ^ FLEX_MASK
    ensures FlexByte(next, LowByte(crc)) == 0x7070
  {
    FlexIndexLow(crc);
    assert ByteShift(POLY_CCITT, 0x0F) == 0xF8F7;
  }

  lemma FlexIndexLow(crc: bv16)
    ensures var next := (crc << 8) ^ FLEX_MASK;
            && (next >> 8) ^ (LowByte(crc) as bv16) == 0x0F
            && (next << 8) == 0x8700
  {
  }

  // ----- Error detection -----

  /** A word whose top bit is set, as both polynomials are. */
  predicate TopBit(x: bv16) {
    x & 0x8000 != 0
  }

  lemma StepInjective(poly: bv16, x: bv16, y: bv16, bit: bool)
    requires TopBit(poly) && x != y
    ensures Step(poly, x, bit) != Step(poly, y, bit)
  {
    hide Step;
    StepXor(poly, x, y, bit, bit);
    XorNonZero(x, y);
    XorNonZero(Step(poly, x, bit), Step(poly, y, bit));
    StepNonZero(poly, Xor(x, y));
  }

  lemma StepNonZero(poly: bv16, d: bv16)
    requires TopBit(poly) && d != 0
    ensures Step(poly, d, false) != 0
  {
  }

  /** Different registers stay different over the same bits. */
  lemma {:induction false} RegisterInjective(poly: bv16, x: bv16, y: bv16, bits: seq<bool>)
    requires TopBit(poly) && x != y
    ensures Register(poly, x, bits) != Register(poly, y, bits)
    decreases |bits|
  {
    hide Step, TopBit;
    if bits != [] {
      StepInjective(poly, x, y, bits[0]);
      RegisterInjective(poly, Step(poly, x, bits[0]), Step(poly, y, bits[0]), bits[1..]);
    }
  }

  /** d is still not zero after n shifts. */
  predicate Survives(d: bv16, n: nat)
    decreases n
  {
    if n == 0 then d != 0 else Survives(Half(d), n - 1)
  }

  lemma {:induction false} SurvivesLess(d: bv16, n: nat)
    requires n > 0 && Survives(d, n)
    ensures Survives(d, n - 1)
    decreases n
  {
    hide Half;
    if n > 1 {
      SurvivesLess(Half(d), n - 1);
    } else {
      HalfOfZero(d);
    }
  }

  lemma HalfOfZero(d: bv16)
    ensures Half(d) != 0 ==> d != 0
  {
  }

  lemma {:induction false} SurvivesFewer(d: bv16, n: nat, m: nat)
    requires m <= n && Survives(d, n)
    ensures Survives(d, m)
    decreases n
  {
    hide Half;
    if m < n {
      SurvivesLess(d, n);
      SurvivesFewer(d, n - 1, m);
    }
  }

  lemma TopBitSurvives(d: bv16)
    requires TopBit(d)
    ensures Survives(d, 15)
  {
  }

  lemma TopBitAfterXor(d: bv16, poly: bv16)
    requires TopBit(poly)
    ensures TopBit(Xor(Half(d), poly))
  {
  }

  lemma StepSurvives(poly: bv16, d: bv16, bit: bool, n: nat)
    requires TopBit(poly) && 0 < n <= 15 && Survives(d, n)
    ensures Survives(Step(poly, d, bit), n - 1)
  {
    hide Half, Xor, Odd, TopBit;
    if Odd(d) != bit {
      var next := Xor(Half(d), poly);
      TopBitAfterXor(d, poly);
      TopBitSurvives(next);
      SurvivesFewer(next, 15, n - 1);
    }
  }

  /** A difference that survives n shifts survives n steps with arbitrary further bit errors. */
  lemma {:induction false} DifferenceStays(poly: bv16, x: bv16, y: bv16, u: seq<bool>, v: seq<bool>, n: nat)
    requires TopBit(poly) && |u| == |v| <= n <= 15 && Survives(Xor(x, y), n)
    ensures Register(poly, x, u) != Register(poly, y, v)
    decreases n
  {
    hide Step, Xor, TopBit;
    if u == [] {
      SurvivesFewer(Xor(x, y), n, 0);
      XorNonZero(x, y);
    } else {
      StepXor(poly, x, y, u[0], v[0]);
      StepSurvives(poly, Xor(x, y), u[0] != v[0], n);
      DifferenceStays(poly, Step(poly, x, u[0]), Step(poly, y, v[0]), u[1..], v[1..], n - 1);
    }
  }

  /** Two different bit windows of the same length, up to 16, lead the register apart. */
  lemma {:induction false} BurstSplits(poly: bv16, c: bv16, u: seq<bool>, v: seq<bool>)
    requires TopBit(poly) && |u| == |v| <= 16 && u != v
    ensures Register(poly, c, u) != Register(poly, c, v)
    decreases |u|
  {
    hide Step, TopBit, Xor;
    if u[0] == v[0] {
      assert u == [u[0]] + u[1..] && v == [v[0]] + v[1..];
      BurstSplits(poly, Step(poly, c, u[0]), u[1..], v[1..]);
    } else {
      StepXor(poly, c, c, u[0], v[0]);
      FirstError(poly, c);
      TopBitSurvives(poly);
      DifferenceStays(poly, Step(poly, c, u[0]), Step(poly, c, v[0]), u[1..], v[1..], 15);
    }
  }

  lemma FirstError(poly: bv16, c: bv16)
    ensures Step(poly, Xor(c, c), true) == poly
  {
  }

  /** Every burst of at most 16 bits, at any bit position of messages of any length and from any
      initial value, changes the checksum. */
  lemma BurstsAreDetected(poly: bv16, init: bv16, before: seq<bool>, u: seq<bool>, v: seq<bool>, after: seq<bool>)
    requires TopBit(poly) && |u| == |v| <= 16 && u != v
    ensures Register(poly, init, before + u + after) != Register(poly, init, before + v + after)
  {
    hide *;
    var c := Register(poly, init, before);
    RegisterConcat(poly, init, before + u, after);
    RegisterConcat(poly, init, before, u);
    RegisterConcat(poly, init, before + v, after);
    RegisterConcat(poly, init, before, v);
    BurstSplits(poly, c, u, v);
    RegisterInjective(poly, Register(poly, c, u), Register(poly, c, v), after);
  }

  /** The buffers agree outside the two bytes at k and k + 1. */
  predicate DifferOnlyInPair(a: seq<byte>, b: seq<byte>, k: nat) {
    |a| == |b| && k + 1 < |a| && a[..k] == b[..k] && a[k + 2..] == b[k + 2..]
  }

  lemma {:induction false} MessageBitsConcat(a: seq<byte>, b: seq<byte>)
    ensures MessageBits(a + b) == MessageBits(a) + MessageBits(b)
    decreases |b|
  {
    hide LowBits;
    if b == [] {
      assert a + b == a;
    } else {
      var n := |b| - 1;
      MessageBitsConcat(a, b[..n]);
      assert (a + b)[..|a + b| - 1] == a + b[..n];
    }
  }

  lemma ByteFromBits(a: byte, b: byte)
    requires LowBits(a as bv16, 8) == LowBits(b as bv16, 8)
    ensures a == b
  {
    hide LowBits, Odd, Half;
    var x, y := a as bv16, b as bv16;
    var x2, y2 := Half(Half(x)), Half(Half(y));
    var x4, y4 := Half(Half(x2)), Half(Half(y2));
    var x6, y6 := Half(Half(x4)), Half(Half(y4));
    SameLowBits(x, y, 8);
    SameLowBits(Half(x), Half(y), 7);
    SameLowBits(x2, y2, 6);
    SameLowBits(Half(x2), Half(y2), 5);
    SameLowBits(x4, y4, 4);
    SameLowBits(Half(x4), Half(y4), 3);
    SameLowBits(x6, y6, 2);
    SameLowBits(Half(x6), Half(y6), 1);
    SameBits(a, b);
  }

  lemma SameLowBits(x: bv16, y: bv16, n: nat)
    requires n > 0 && LowBits(x, n) == LowBits(y, n)
    ensures Odd(x) == Odd(y) && LowBits(Half(x), n - 1) == LowBits(Half(y), n - 1)
  {
    hide Odd, Half;
    assert LowBits(x, n)[0] == LowBits(y, n)[0];
    assert LowBits(x, n)[1..] == LowBits(Half(x), n - 1) && LowBits(y, n)[1..] == LowBits(Half(y), n - 1);
  }

  lemma SameBits(a: byte, b: byte)
    ensures var x, y := a as bv16, b as bv16;
            var x2, y2 := Half(Half(x)), Half(Half(y));
            var x4, y4 := Half(Half(x2)), Half(Half(y2));
            var x6, y6 := Half(Half(x4)), Half(Half(y4));
            && Odd(x) == Odd(y) && Odd(Half(x)) == Odd(Half(y)) && Odd(x2) == Odd(y2) && Odd(Half(x2)) == Odd(Half(y2))
            && Odd(x4) == Odd(y4) && Odd(Half(x4)) == Odd(Half(y4))
            && Odd(x6) == Odd(y6) && Odd(Half(x6)) == Odd(Half(y6))
            ==> a == b
  {
  }

  /** Equal-length buffers that differ, but only inside two adjacent bytes, never share a
      checksum, from any initial value. */
  lemma PairErrorsAreDetected(poly: bv16, init: bv16, a: seq<byte>, b: seq<byte>, k: nat)
    requires poly == POLY_CRC16 || poly == POLY_CCITT
    requires DifferOnlyInPair(a, b, k) && a != b
    ensures Lfsr(poly, init, a) != Lfsr(poly, init, b)
  {
    hide Register, MessageBits, Step;
    var u, v := a[k..k + 2], b[k..k + 2];
    assert a == a[..k] + u + a[k + 2..] && b == b[..k] + v + b[k + 2..];
    assert u != v;
    MessageBitsConcat(a[..k] + u, a[k + 2..]);
    MessageBitsConcat(a[..k], u);
    MessageBitsConcat(b[..k] + v, b[k + 2..]);
    MessageBitsConcat(b[..k], v);
    PairBits(u, v);
    BurstsAreDetected(poly, init, MessageBits(a[..k]), MessageBits(u), MessageBits(v), MessageBits(a[k + 2..]));
  }

  lemma PairBits(u: seq<byte>, v: seq<byte>)
    requires |u| == |v| == 2 && u != v
    ensures MessageBits(u) != MessageBits(v)
  {
    hide LowBits, MessageBits;
    PairConcat(u);
    PairConcat(v);
    if MessageBits(u) == MessageBits(v) {
      assert MessageBits(u)[..8] == MessageBits(v)[..8] && MessageBits(u)[8..] == MessageBits(v)[8..];
      ByteFromBits(u[0], v[0]);
      ByteFromBits(u[1], v[1]);
    }
  }

  lemma PairConcat(u: seq<byte>)
    requires |u| == 2
    ensures MessageBits(u)[..8] == LowBits(u[0] as bv16, 8) && MessageBits(u)[8..] == LowBits(u[1] as bv16, 8)
  {
    hide LowBits;
    assert u[..1][..0] == [] && u[..1][0] == u[0];
    assert MessageBits(u[..1]) == LowBits(u[0] as bv16, 8);
  }

  /** So a buffer that passes the CRC-16 check stops passing it after such an error; one wrong
      byte is the case where only one of the pair changed. */
  lemma CorruptionFailsTheCheck(a: seq<byte>, b: seq<byte>, k: nat)
    requires Lfsr(POLY_CRC16, 0, a) == 0 && DifferOnlyInPair(a, b, k) && a != b
    ensures Lfsr(POLY_CRC16, 0, b) != 0
  {
    PairErrorsAreDetected(POLY_CRC16, 0, a, b, k);
  }
}
