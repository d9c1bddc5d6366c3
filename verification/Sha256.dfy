/**
 SHA-256 (sha2-openbsd.c, the rolled transform): the compression function of
 section 6.2.2 of FIPS 180-4 with its 64-word schedule, the padding of section
 5.1.1, and the transform that keeps only sixteen words of the schedule, in the
 very buffer it may be reading the block from.
 */
module Sha256 {
  import opened Arithmetic
  import opened Bytes

  const BLOCK: nat := 64
  const SHORT_BLOCK: nat := 56
  const BUFFER: nat := 128

  type Byte = bv8
  type Word32 = bv32

  // ---- the logical functions ---------------------------------------------------------------

  function Rotr(b: bv6, x: Word32): Word32
    requires b <= 32
  {
    (x >> b) | (x << (32 - b))
  }

  /** Addition modulo 2^32. */
  function Plus(x: Word32, y: Word32): Word32 { x + y }
  function Ch(x: Word32, y: Word32, z: Word32): Word32 { (x & y) ^ (!x & z) }
  function Maj(x: Word32, y: Word32, z: Word32): Word32 { (x & y) ^ (x & z) ^ (y & z) }
  function BigSigma0(x: Word32): Word32 { Rotr(2, x) ^ Rotr(13, x) ^ Rotr(22, x) }
  function BigSigma1(x: Word32): Word32 { Rotr(6, x) ^ Rotr(11, x) ^ Rotr(25, x) }
  function SmallSigma0(x: Word32): Word32 { Rotr(7, x) ^ Rotr(18, x) ^ (x >> 3) }
  function SmallSigma1(x: Word32): Word32 { Rotr(17, x) ^ Rotr(19, x) ^ (x >> 10) }

  const K256: seq<Word32> :=
    [0x428a2f98, 0x71374491, 0xb5c0fbcf, 0xe9b5dba5, 0x3956c25b, 0x59f111f1, 0x923f82a4, 0xab1c5ed5]
    + [0xd807aa98, 0x12835b01, 0x243185be, 0x550c7dc3, 0x72be5d74, 0x80deb1fe, 0x9bdc06a7, 0xc19bf174]
    + [0xe49b69c1, 0xefbe4786, 0x0fc19dc6, 0x240ca1cc, 0x2de92c6f, 0x4a7484aa, 0x5cb0a9dc, 0x76f988da]
    + [0x983e5152, 0xa831c66d, 0xb00327c8, 0xbf597fc7, 0xc6e00bf3, 0xd5a79147, 0x06ca6351, 0x14292967]
    + [0x27b70a85, 0x2e1b2138, 0x4d2c6dfc, 0x53380d13, 0x650a7354, 0x766a0abb, 0x81c2c92e, 0x92722c85]
    + [0xa2bfe8a1, 0xa81a664b, 0xc24b8b70, 0xc76c51a3, 0xd192e819, 0xd6990624, 0xf40e3585, 0x106aa070]
    + [0x19a4c116, 0x1e376c08, 0x2748774c, 0x34b0bcb5, 0x391c0cb3, 0x4ed8aa4a, 0x5b9cca4f, 0x682e6ff3]
    + [0x748f82ee, 0x78a5636f, 0x84c87814, 0x8cc70208, 0x90befffa, 0xa4506ceb, 0xbef9a3f7, 0xc67178f2]

  function RoundConstant(t: nat): Word32
    requires t < 64
  {
    K256[t]
  }

  /** The eight working variables, or the eight words of the hash value. */
  datatype Registers = Registers(
    a: Word32, b: Word32, c: Word32, d: Word32, e: Word32, f: Word32, g: Word32, h: Word32)

  const INITIAL := Registers(
    0x6a09e667, 0xbb67ae85, 0x3c6ef372, 0xa54ff53a, 0x510e527f, 0x9b05688c, 0x1f83d9ab, 0x5be0cd19)

  // ---- the standard's compression function -----------------------------------------------------

  /** Word t of a block: four bytes, most significant first. */
  function BlockWord(block: seq<Byte>, t: nat): Word32
    requires 4 * t + 4 <= |block|
  {
    Together(block[4 * t], block[4 * t + 1], block[4 * t + 2], block[4 * t + 3])
  }

  function Together(b0: Byte, b1: Byte, b2: Byte, b3: Byte): Word32 {
    (b3 as bv32) | ((b2 as bv32) << 8) | ((b1 as bv32) << 16) | ((b0 as bv32) << 24)
  }

  /** Word t of the message schedule, for all 64 of them. */
  function Schedule(block: seq<Byte>, t: nat): Word32
    requires |block| == BLOCK
    decreases t
  {
    if t < 16 then BlockWord(block, t)
    else
      Plus(Plus(Plus(SmallSigma1(Schedule(block, t - 2)), Schedule(block, t - 7)),
                SmallSigma0(Schedule(block, t - 15))),
           Schedule(block, t - 16))
  }

  function Step(r: Registers, k: Word32, w: Word32): Registers {
    var t1 := Plus(Plus(Plus(Plus(r.h, BigSigma1(r.e)), Ch(r.e, r.f, r.g)), k), w);
    var t2 := Plus(BigSigma0(r.a), Maj(r.a, r.b, r.c));
    Registers(Plus(t1, t2), r.a, r.b, r.c, Plus(r.d, t1), r.e, r.f, r.g)
  }

  /** The working variables after t rounds. */
  function Rounds(hash: Registers, block: seq<Byte>, t: nat): Registers
    requires |block| == BLOCK && t <= 64
  {
    if t == 0 then hash else Step(Rounds(hash, block, t - 1), RoundConstant(t - 1), Schedule(block, t - 1))
  }

  lemma NextRound(hash: Registers, block: seq<Byte>, t: nat)
    requires |block| == BLOCK && t < 64
    ensures Rounds(hash, block, t + 1) == Step(Rounds(hash, block, t), RoundConstant(t), Schedule(block, t))
  {}

  function AddRegisters(x: Registers, y: Registers): Registers {
    Registers(Plus(x.a, y.a), Plus(x.b, y.b), Plus(x.c, y.c), Plus(x.d, y.d),
              Plus(x.e, y.e), Plus(x.f, y.f), Plus(x.g, y.g), Plus(x.h, y.h))
  }

  function Compress(hash: Registers, block: seq<Byte>): Registers
    requires |block| == BLOCK
  {
    AddRegisters(hash, Rounds(hash, block, 64))
  }

  // ---- the rounds run backwards -----------------------------------------------------------------

  function Minus(x: Word32, y: Word32): Word32 { x - y }

  /** The working variables that this round made s of. */
  function StepBack(s: Registers, k: Word32, w: Word32): Registers {
    var t1 := Minus(s.a, Plus(BigSigma0(s.b), Maj(s.b, s.c, s.d)));
    Registers(s.b, s.c, s.d, Minus(s.e, t1), s.f, s.g, s.h,
              Minus(Minus(Minus(Minus(t1, w), k), Ch(s.f, s.g, s.h)), BigSigma1(s.f)))
  }

  lemma PlusMinus(x: Word32, y: Word32)
    ensures Minus(Plus(x, y), y) == x && Minus(Plus(x, y), x) == y
  {}

  lemma StepBackUndoes(r: Registers, k: Word32, w: Word32)
    ensures StepBack(Step(r, k, w), k, w) == r
  {
    hide Plus, Minus, Ch, Maj, BigSigma0, BigSigma1;
    var t2 := Plus(BigSigma0(r.a), Maj(r.a, r.b, r.c));
    var h1 := Plus(r.h, BigSigma1(r.e));
    var h2 := Plus(h1, Ch(r.e, r.f, r.g));
    var h3 := Plus(h2, k);
    PlusMinus(Plus(h3, w), t2);
    PlusMinus(r.d, Plus(h3, w));
    PlusMinus(h3, w);
    PlusMinus(h2, k);
    PlusMinus(h1, Ch(r.e, r.f, r.g));
    PlusMinus(r.h, BigSigma1(r.e));
  }

  function RoundsBack(s: Registers, block: seq<Byte>, t: nat): Registers
    requires |block| == BLOCK && t <= 64
    decreases t
  {
    if t == 0 then s
    else RoundsBack(StepBack(s, RoundConstant(t - 1), Schedule(block, t - 1)), block, t - 1)
  }

  lemma {:induction false} RoundsBackUndo(hash: Registers, block: seq<Byte>, t: nat)
    requires |block| == BLOCK && t <= 64
    ensures RoundsBack(Rounds(hash, block, t), block, t) == hash
  {
    hide Step, StepBack, Schedule, RoundConstant;
    if t > 0 {
      StepBackUndoes(Rounds(hash, block, t - 1), RoundConstant(t - 1), Schedule(block, t - 1));
      RoundsBackUndo(hash, block, t - 1);
    }
  }

  function SubtractRegisters(x: Registers, y: Registers): Registers {
    Registers(Minus(x.a, y.a), Minus(x.b, y.b), Minus(x.c, y.c), Minus(x.d, y.d),
              Minus(x.e, y.e), Minus(x.f, y.f), Minus(x.g, y.g), Minus(x.h, y.h))
  }

  /**
   For every hash value and block: take the hash value off what the compression makes of
   it, run the 64 rounds backwards, and it is the hash value that comes out.
   */
  lemma CompressionUndone(hash: Registers, block: seq<Byte>)
    requires |block| == BLOCK
    ensures RoundsBack(SubtractRegisters(Compress(hash, block), hash), block, 64) == hash
  {
    hide Rounds, RoundsBack, Plus, Minus;
    var r := Rounds(hash, block, 64);
    RoundsBackUndo(hash, block, 64);
    TakenOff(hash, r);
  }

  lemma TakenOff(x: Registers, y: Registers)
    ensures SubtractRegisters(AddRegisters(x, y), x) == y
  {
    hide Plus, Minus;
    PlusMinus(x.a, y.a);
    PlusMinus(x.b, y.b);
    PlusMinus(x.c, y.c);
    PlusMinus(x.d, y.d);
    PlusMinus(x.e, y.e);
    PlusMinus(x.f, y.f);
    PlusMinus(x.g, y.g);
    PlusMinus(x.h, y.h);
  }

  /** The hash value after the whole blocks at the front of s. */
  function HashBlocks(hash: Registers, s: seq<Byte>): Registers
    decreases |s|
  {
    if |s| < BLOCK then hash else HashBlocks(Compress(hash, s[..BLOCK]), s[BLOCK..])
  }

  // ---- padding ------------------------------------------------------------------------------------

  function ByteOf(n: nat): Byte {
    (n % 256) as bv8
  }

  /** A 64-bit number as eight bytes, most significant first. */
  function BigEndian64(n: nat): (r: seq<Byte>)
    ensures |r| == 8
  {
    [ByteOf(n / 0x100_0000_0000_0000), ByteOf(n / 0x1_0000_0000_0000), ByteOf(n / 0x100_0000_0000),
     ByteOf(n / 0x1_0000_0000), ByteOf(n / 0x100_0000), ByteOf(n / 0x1_0000), ByteOf(n / 0x100), ByteOf(n)]
  }

  const UINT64: nat := 0x1_0000_0000_0000_0000

  function Zeros(n: nat): (r: seq<Byte>)
    ensures |r| == n
  {
    seq(n, i => 0)
  }

  /** How many zero bytes follow the 0x80 byte: as few as leave eight bytes to the end of a block. */
  function ZeroBytes(length: nat): (k: nat)
    ensures (length + 1 + k) % BLOCK == SHORT_BLOCK && k < BLOCK
  {
    FillsToShortBlock(length / BLOCK, length % BLOCK);
    (2 * BLOCK + SHORT_BLOCK - 1 - length % BLOCK) % BLOCK
  }

  lemma FillsToShortBlock(blocks: nat, used: nat)
    requires used < BLOCK
    ensures
      var k := (2 * BLOCK + SHORT_BLOCK - 1 - used) % BLOCK;
      (BLOCK * blocks + used + 1 + k) % BLOCK == SHORT_BLOCK && k < BLOCK
  {
    var k := if used < SHORT_BLOCK then SHORT_BLOCK - 1 - used else BLOCK + SHORT_BLOCK - 1 - used;
    var more := if used < SHORT_BLOCK then 0 else 1;
    assert (2 * BLOCK + SHORT_BLOCK - 1 - used) % BLOCK == k;
    assert BLOCK * blocks + used + 1 + k == BLOCK * (blocks + more) + SHORT_BLOCK;
  }

  function Padded(message: seq<Byte>): seq<Byte> {
    message + [0x80] + Zeros(ZeroBytes(|message|)) + BigEndian64(BitCount(|message|))
  }

  /** The message and its padding up to the length, which then completes the last block. */
  function Unfinished(message: seq<Byte>): seq<Byte> {
    message + [0x80] + Zeros(ZeroBytes(|message|))
  }

  lemma UnfinishedLength(message: seq<Byte>)
    ensures Used(|Unfinished(message)|) == SHORT_BLOCK
    ensures Padded(message) == Unfinished(message) + BigEndian64(BitCount(|message|))
  {
    hide BigEndian64;
  }

  function Octet(b: Byte): nat { b as nat }

  lemma ByteOfIs(n: nat)
    ensures Octet(ByteOf(n)) == n % 256
  {
    ByteRoundTrip(n % 256);
  }

  /**
   The padded message is the message, a one bit, fewer than 64 bytes of zeros, and the
   number of the message's bits modulo 2^64, most significant byte first; it fills blocks.
   */
  lemma PaddingShape(message: seq<Byte>)
    ensures
      var p, n := Padded(message), |message|;
      && |p| % BLOCK == 0 && n + 9 <= |p| < n + 9 + BLOCK
      && p[..n] == message && p[n] == 0x80
      && (forall k :: n < k < |p| - 8 ==> p[k] == 0)
      && Number64(p[|p| - 8..]) == 8 * n % UINT64
  {
    hide BigEndian64, Number64, ZeroBytes;
    var p, n := Padded(message), |message|;
    assert p[|p| - 8..] == BigEndian64(BitCount(n));
    BigEndianNumber(BitCount(n));
    WholeBlocks(n + 1 + ZeroBytes(n));
  }

  lemma WholeBlocks(length: nat)
    requires length % BLOCK == SHORT_BLOCK
    ensures (length + 8) % BLOCK == 0
  {}

  /** The number that these eight bytes are, the most significant one first. */
  function Number64(s: seq<Byte>): nat
    requires |s| == 8
  {
    (((((((Octet(s[0]) * 256 + Octet(s[1])) * 256 + Octet(s[2])) * 256 + Octet(s[3])) * 256
    + Octet(s[4])) * 256 + Octet(s[5])) * 256 + Octet(s[6])) * 256 + Octet(s[7]))
  }

  function Low(n: nat): nat { n % 256 }

  /** One digit more. */
  lemma Digit(n: nat, d: nat)
    requires 1 <= d
    ensures n / (d * 256) * 256 + Low(n / d) == n / d
  {
    var q, r := n / d, n % d;
    assert n == q * d + r && q == q / 256 * 256 + q % 256;
    DigitParts(n, d, q, r, q / 256, q % 256);
  }

  lemma DigitParts(n: nat, d: nat, q: nat, r: nat, k: nat, b: nat)
    requires n == q * d + r && r < d && q == k * 256 + b && b < 256
    ensures n / (d * 256) == k
  {
    hide *;
    MulDistrib(d, k * 256, b);
    MulAssoc(k, 256, d);
    MulComm(256, d);
    MulMono(b, 255, d);
    DivModUnique(n, d * 256, k, b * d + r);
  }

  lemma BigEndianNumber(n: nat)
    requires n < UINT64
    ensures Number64(BigEndian64(n)) == n
  {
    hide ByteOf;
    var s := BigEndian64(n);
    var x1, x2, x3, x4 := n / 0x100, n / 0x1_0000, n / 0x100_0000, n / 0x1_0000_0000;
    var x5, x6, x7 := n / 0x100_0000_0000, n / 0x1_0000_0000_0000, n / 0x100_0000_0000_0000;
    assert Low(x7) == x7;
    assert s == [ByteOf(x7), ByteOf(x6), ByteOf(x5), ByteOf(x4), ByteOf(x3), ByteOf(x2), ByteOf(x1), ByteOf(n)];
    hide BigEndian64, Low;
    Digit(n, 1);
    Digit(n, 0x100);
    Digit(n, 0x1_0000);
    Digit(n, 0x100_0000);
    Digit(n, 0x1_0000_0000);
    Digit(n, 0x100_0000_0000);
    Digit(n, 0x1_0000_0000_0000);
    HornerBytes(s, n, x1, x2, x3, x4, x5, x6, x7);
  }

  lemma HornerBytes(s: seq<Byte>, n: nat, x1: nat, x2: nat, x3: nat, x4: nat, x5: nat, x6: nat, x7: nat)
    requires s == [ByteOf(x7), ByteOf(x6), ByteOf(x5), ByteOf(x4), ByteOf(x3), ByteOf(x2), ByteOf(x1), ByteOf(n)]
    requires Low(x7) == x7 && x7 * 256 + Low(x6) == x6 && x6 * 256 + Low(x5) == x5 && x5 * 256 + Low(x4) == x4
    requires x4 * 256 + Low(x3) == x3 && x3 * 256 + Low(x2) == x2 && x2 * 256 + Low(x1) == x1
    requires x1 * 256 + Low(n) == n
    ensures Number64(s) == n
  {
    hide ByteOf, Octet, Number64, Low;
    Octets(s, [x7, x6, x5, x4, x3, x2, x1, n]);
    Horner(s, n, x1, x2, x3, x4, x5, x6, x7);
  }

  lemma Octets(s: seq<Byte>, xs: seq<nat>)
    requires |s| == |xs| && forall i :: 0 <= i < |xs| ==> s[i] == ByteOf(xs[i])
    ensures forall i :: 0 <= i < |xs| ==> Octet(s[i]) == Low(xs[i])
  {
    hide ByteOf, Octet;
    forall i | 0 <= i < |xs| ensures Octet(s[i]) == Low(xs[i]) {
      ByteOfIs(xs[i]);
    }
  }

  lemma Horner(s: seq<Byte>, n: nat, x1: nat, x2: nat, x3: nat, x4: nat, x5: nat, x6: nat, x7: nat)
    requires |s| == 8 && Octet(s[0]) == x7
    requires x7 * 256 + Octet(s[1]) == x6 && x6 * 256 + Octet(s[2]) == x5 && x5 * 256 + Octet(s[3]) == x4
    requires x4 * 256 + Octet(s[4]) == x3 && x3 * 256 + Octet(s[5]) == x2 && x2 * 256 + Octet(s[6]) == x1
    requires x1 * 256 + Octet(s[7]) == n
    ensures Number64(s) == n
  {
    hide Octet;
  }

  /** How many zero bytes there are, from how full the last block is. */
  lemma ZeroBytesIs(length: nat)
    ensures ZeroBytes(length) ==
      if Used(length) + 1 <= SHORT_BLOCK then SHORT_BLOCK - Used(length) - 1
      else BLOCK - Used(length) - 1 + SHORT_BLOCK
  {}

  /** A word as four bytes, most significant first. */
  function BigEndian32(w: Word32): (r: seq<Byte>)
    ensures |r| == 4
  {
    [HighByte(w), ThirdByte(w), SecondByte(w), LowByte(w)]
  }

  function Nth(r: Registers, i: nat): Word32
    requires i < 8
  {
    [r.a, r.b, r.c, r.d, r.e, r.f, r.g, r.h][i]
  }

  /** The hash value as bytes, word after word. */
  function HashBytes(r: Registers, words: nat): (b: seq<Byte>)
    requires words <= 8
    ensures |b| == 4 * words
  {
    if words == 0 then [] else HashBytes(r, words - 1) + BigEndian32(Nth(r, words - 1))
  }

  /** The digest of a message, given whole. */
  function Digest(message: seq<Byte>): seq<Byte> {
    HashBytes(HashBlocks(INITIAL, Padded(message)), 8)
  }

  // ---- words in memory ------------------------------------------------------------------------------

  /** What the host, a little-endian machine, reads as word j of the buffer. */
  function LoadWord(s: seq<Byte>, j: nat): Word32
    requires 4 * j + 4 <= |s|
  {
    Together(s[4 * j + 3], s[4 * j + 2], s[4 * j + 1], s[4 * j])
  }

  function LowByte(w: Word32): Byte { (w & 0xFF) as bv8 }
  function SecondByte(w: Word32): Byte { ((w >> 8) & 0xFF) as bv8 }
  function ThirdByte(w: Word32): Byte { ((w >> 16) & 0xFF) as bv8 }
  function HighByte(w: Word32): Byte { ((w >> 24) & 0xFF) as bv8 }

  lemma LoadUnchanged(s: seq<Byte>, s': seq<Byte>, j: nat)
    requires 4 * j + 4 <= |s| == |s'| && forall k :: 4 * j <= k < 4 * j + 4 ==> s[k] == s'[k]
    ensures LoadWord(s, j) == LoadWord(s', j)
  {}

  lemma BytesMakeWord(w: Word32)
    ensures Together(HighByte(w), ThirdByte(w), SecondByte(w), LowByte(w)) == w
  {}

  lemma AddOrder(a: Word32, b: Word32, c: Word32, d: Word32)
    ensures Plus(a, Plus(Plus(b, c), d)) == Plus(Plus(Plus(b, c), d), a)
  {}

  // ---- byte reversal -----------------------------------------------------------------------------------

  /** REVERSE32 */
  function Reverse32(w: Word32): Word32 {
    var tmp := (w >> 16) | (w << 16);
    ((tmp & 0xff00ff00) >> 8) | ((tmp & 0x00ff00ff) << 8)
  }

  lemma ReversedBytes(w: Word32)
    ensures [LowByte(Reverse32(w)), SecondByte(Reverse32(w)), ThirdByte(Reverse32(w)), HighByte(Reverse32(w))]
         == BigEndian32(w)
  {}

  /** The bytes of a 64-bit number as the host keeps them. */
  function LittleEndian64(n: nat): (r: seq<Byte>)
    ensures |r| == 8
  {
    [ByteOf(n), ByteOf(n / 0x100), ByteOf(n / 0x1_0000), ByteOf(n / 0x100_0000), ByteOf(n / 0x1_0000_0000),
     ByteOf(n / 0x100_0000_0000), ByteOf(n / 0x1_0000_0000_0000), ByteOf(n / 0x100_0000_0000_0000)]
  }

  type Word64 = bv64

  /** The word a little-endian host keeps as these eight bytes. */
  function HostWord(s: seq<Byte>): Word64
    requires |s| == 8
  {
    JoinedBytes(s[0], s[1], s[2], s[3], s[4], s[5], s[6], s[7])
  }

  function JoinedBytes(a: Byte, b: Byte, c: Byte, d: Byte, e: Byte, f: Byte, g: Byte, h: Byte): Word64 {
    (a as bv64) | (b as bv64 << 8) | (c as bv64 << 16) | (d as bv64 << 24)
    | (e as bv64 << 32) | (f as bv64 << 40) | (g as bv64 << 48) | (h as bv64 << 56)
  }

  /** The byte of a word that stands this many bits to the left. */
  function ByteAt(w: Word64, shift: bv6): Byte {
    ((w >> shift) & 0xFF) as bv8
  }

  /** These eight bytes, the least significant one first. */
  function HostBytes(w: Word64): (r: seq<Byte>)
    ensures |r| == 8
  {
    [ByteAt(w, 0), ByteAt(w, 8), ByteAt(w, 16), ByteAt(w, 24), ByteAt(w, 32), ByteAt(w, 40), ByteAt(w, 48), ByteAt(w, 56)]
  }

  /** REVERSE64: halves, then neighbouring bytes, then neighbouring pairs are exchanged. */
  function Reverse64(w: Word64): Word64 {
    var halves := (w >> 32) | (w << 32);
    var bytes := ((halves & 0xff00ff00ff00ff00) >> 8) | ((halves & 0x00ff00ff00ff00ff) << 8);
    ((bytes & 0xffff0000ffff0000) >> 16) | ((bytes & 0x0000ffff0000ffff) << 16)
  }

  lemma Joined64(a: Byte, b: Byte, c: Byte, d: Byte, e: Byte, f: Byte, g: Byte, h: Byte)
    ensures
      var w := JoinedBytes(a, b, c, d, e, f, g, h);
      && ByteAt(w, 0) == a && ByteAt(w, 8) == b && ByteAt(w, 16) == c && ByteAt(w, 24) == d
      && ByteAt(w, 32) == e && ByteAt(w, 40) == f && ByteAt(w, 48) == g && ByteAt(w, 56) == h
  {}

  lemma HostRoundTrip(s: seq<Byte>)
    requires |s| == 8
    ensures HostBytes(HostWord(s)) == s
  {
    hide JoinedBytes, ByteAt;
    Joined64(s[0], s[1], s[2], s[3], s[4], s[5], s[6], s[7]);
  }

  /** The masks and shifts reverse the bytes. */
  lemma ReversedWord(w: Word64)
    ensures
      var s := HostBytes(w);
      HostBytes(Reverse64(w)) == [s[7], s[6], s[5], s[4], s[3], s[2], s[1], s[0]]
  {
    hide Reverse64, ByteAt;
    MovedBytes(w);
  }

  lemma MovedBytes(w: Word64)
    ensures
      var r := Reverse64(w);
      && ByteAt(r, 0) == ByteAt(w, 56) && ByteAt(r, 8) == ByteAt(w, 48)
      && ByteAt(r, 16) == ByteAt(w, 40) && ByteAt(r, 24) == ByteAt(w, 32)
      && ByteAt(r, 32) == ByteAt(w, 24) && ByteAt(r, 40) == ByteAt(w, 16)
      && ByteAt(r, 48) == ByteAt(w, 8) && ByteAt(r, 56) == ByteAt(w, 0)
  {}

  /** Reversing a number's word leaves its bytes in memory most significant first. */
  lemma ReversedNumber(n: nat)
    ensures HostBytes(Reverse64(HostWord(LittleEndian64(n)))) == BigEndian64(n)
  {
    hide ByteOf, HostBytes, HostWord, Reverse64;
    HostRoundTrip(LittleEndian64(n));
    ReversedWord(HostWord(LittleEndian64(n)));
  }

  // ---- hashing block by block ---------------------------------------------------------------------------

  lemma {:induction false} HashSplit(hash: Registers, s: seq<Byte>, t: seq<Byte>)
    requires |s| % BLOCK == 0
    ensures HashBlocks(hash, s + t) == HashBlocks(HashBlocks(hash, s), t)
    decreases |s|
  {
    hide Compress;
    if s == [] {
      assert s + t == t;
    } else {
      assert BLOCK <= |s| && (s + t)[..BLOCK] == s[..BLOCK] && (s + t)[BLOCK..] == s[BLOCK..] + t;
      HashSplit(Compress(hash, s[..BLOCK]), s[BLOCK..], t);
    }
  }

  /** How many bytes of a message do not fill a block yet. */
  function Used(length: nat): (r: nat)
    ensures r < BLOCK && r <= length
  {
    length % BLOCK
  }

  /** The bits of a message, as the context counts them. */
  function BitCount(length: nat): (r: nat)
    ensures r < UINT64
  {
    (8 * length) % UINT64
  }

  /** The bytes of s that do not fill a block yet. */
  function Tail(s: seq<Byte>): (r: seq<Byte>)
    ensures |r| == Used(|s|)
  {
    s[|s| - Used(|s|)..]
  }

  lemma UsedAfter(length: nat, n: nat)
    requires Used(length) + n <= BLOCK
    ensures Used(length + n) == if Used(length) + n == BLOCK then 0 else Used(length) + n
  {}

  lemma CountBits(length: nat, n: nat)
    ensures (BitCount(length) + (8 * n) % UINT64) % UINT64 == BitCount(length + n)
  {
    var x, y := 8 * length, 8 * n;
    CongMod(x, UINT64);
    CongMod(y, UINT64);
    CongAdd(x % UINT64, x, y % UINT64, y, UINT64);
  }

  lemma UsedSpace(n: nat)
    ensures (BitCount(n) / 8) % BLOCK == Used(n)
  {
    var q, r := (8 * n) / UINT64, (8 * n) % UINT64;
    assert 8 * n == q * UINT64 + r;
    assert r / 8 == n + (-q * 0x80_0000_0000_0000) * BLOCK;
    CongWitness(r / 8, n, BLOCK, -q * 0x80_0000_0000_0000);
  }

  /** Filling the last block up compresses it. */
  lemma FilledBlock(hash: Registers, s: seq<Byte>, piece: seq<Byte>)
    requires Used(|s|) + |piece| == BLOCK
    ensures HashBlocks(hash, s + piece) == Compress(HashBlocks(hash, s), Tail(s) + piece)
    ensures Used(|s + piece|) == 0
  {
    var full := s[..|s| - Used(|s|)];
    assert s == full + Tail(s) && s + piece == full + (Tail(s) + piece);
    UsedAfter(|s|, |piece|);
    HashSplit(hash, full, Tail(s));
    HashSplit(hash, full, Tail(s) + piece);
    var block := Tail(s) + piece;
    assert block[..BLOCK] == block && block[BLOCK..] == [];
  }

  /** Bytes that do not fill it up change nothing yet. */
  lemma NotFilled(hash: Registers, s: seq<Byte>, piece: seq<Byte>)
    requires Used(|s|) + |piece| < BLOCK
    ensures HashBlocks(hash, s + piece) == HashBlocks(hash, s)
    ensures Tail(s + piece) == Tail(s) + piece
  {
    hide HashBlocks, Compress;
    var full := s[..|s| - Used(|s|)];
    assert |full| % BLOCK == 0;
    assert s == full + Tail(s) && s + piece == full + (Tail(s) + piece);
    HashSplit(hash, full, Tail(s));
    HashSplit(hash, full, Tail(s) + piece);
    UsedAfter(|s|, |piece|);
    assert Tail(s + piece) == (full + (Tail(s) + piece))[|full|..];
    ShortHash(HashBlocks(hash, full), Tail(s));
    ShortHash(HashBlocks(hash, full), Tail(s) + piece);
  }

  lemma ShortHash(hash: Registers, s: seq<Byte>)
    requires |s| < BLOCK
    ensures HashBlocks(hash, s) == hash
  {}
}
