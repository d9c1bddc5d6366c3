/**
 SHA-256 on a published example: the digest of the three bytes "abc" that FIPS 180-4's
 examples give, computed through the schedule and the rounds a few at a time.
 */
module Sha256Example {
  import opened Sha256
  import opened Sha256Constants

  const ABC: seq<Byte> := [0x61, 0x62, 0x63]

  /** The one block that the padding makes of it. */
  function Block(): (r: seq<Byte>)
    ensures |r| == BLOCK
  {
    ABC + [0x80] + Zeros(59) + [0x18]
  }

  lemma PaddedAbc()
    ensures Padded(ABC) == Block()
  {
    hide BigEndian64;
    assert ZeroBytes(3) == 52 && BitCount(3) == 24;
    LengthBytes();
    assert Zeros(52) + Zeros(7) == Zeros(59);
  }

  lemma LengthBytes()
    ensures BigEndian64(24) == Zeros(7) + [0x18]
  {
    LowBytes();
    hide ByteOf;
  }

  lemma LowBytes()
    ensures ByteOf(24) == 0x18 && ByteOf(0) == 0
  {}

  // ---- the schedule -----------------------------------------------------------------------------

  /** The schedule of the block. */
  ghost predicate IsSchedule(s: seq<Word32>) {
    |s| == 64 && forall t :: 0 <= t < 64 ==> s[t] == Schedule(Block(), t)
  }

  /** These are eight words of the schedule, from word 8 * i on. */
  ghost predicate Row(s: seq<Word32>, i: nat, w0: Word32, w1: Word32, w2: Word32, w3: Word32,
                      w4: Word32, w5: Word32, w6: Word32, w7: Word32)
    requires i < 8 && |s| == 64
  {
    && s[8 * i] == w0 && s[8 * i + 1] == w1
    && s[8 * i + 2] == w2 && s[8 * i + 3] == w3
    && s[8 * i + 4] == w4 && s[8 * i + 5] == w5
    && s[8 * i + 6] == w6 && s[8 * i + 7] == w7
  }

  lemma FirstWords(s: seq<Word32>)
    requires IsSchedule(s)
    ensures Row(s, 0,
      0x61626380, 0x00000000, 0x00000000, 0x00000000,
      0x00000000, 0x00000000, 0x00000000, 0x00000000)
    ensures Row(s, 1,
      0x00000000, 0x00000000, 0x00000000, 0x00000000,
      0x00000000, 0x00000000, 0x00000000, 0x00000018)
  {
    hide Together, Block, IsSchedule;
    BlockBytes();
    assert Together(0x61, 0x62, 0x63, 0x80) == 0x61626380 && Together(0, 0, 0, 0) == 0 && Together(0, 0, 0, 0x18) == 0x18 by {
      TogetherHere();
    }
    AsLong(s);
    forall t: nat | t < 16
      ensures s[t] == if t == 0 then 0x61626380 else if t == 15 then 0x18 else 0
    {
      PlainWord(s, t);
    }
  }

  lemma AsLong(s: seq<Word32>)
    requires IsSchedule(s)
    ensures |s| == 64
  {}

  lemma TogetherHere()
    ensures Together(0x61, 0x62, 0x63, 0x80) == 0x61626380 && Together(0, 0, 0, 0) == 0 && Together(0, 0, 0, 0x18) == 0x18
  {}

  lemma BlockBytes()
    ensures
      var b := Block();
      && b[0] == 0x61 && b[1] == 0x62 && b[2] == 0x63 && b[3] == 0x80 && b[63] == 0x18
      && forall k :: 4 <= k < 63 ==> b[k] == 0
  {}

  lemma PlainWord(s: seq<Word32>, t: nat)
    requires IsSchedule(s) && t < 16
    ensures
      var b := Block();
      s[t] == Together(b[4 * t], b[4 * t + 1], b[4 * t + 2], b[4 * t + 3])
  {
    hide Together, Block;
  }

  /** A word from the four that it is made of. */
  lemma Word(s: seq<Word32>, t: nat, w2: Word32, w7: Word32, w15: Word32, w16: Word32, w: Word32)
    requires IsSchedule(s) && 16 <= t < 64
    requires s[t - 2] == w2 && s[t - 7] == w7 && s[t - 15] == w15 && s[t - 16] == w16
    requires Plus(Plus(Plus(SmallSigma1(w2), w7), SmallSigma0(w15)), w16) == w
    ensures s[t] == w
  {
    hide Plus, SmallSigma0, SmallSigma1, Block;
  }

  /** The other words, each from those before it. */
  lemma LaterWords(s: seq<Word32>)
    requires IsSchedule(s)
    ensures Row(s, 2,
      0x61626380, 0x000f0000, 0x7da86405, 0x600003c6,
      0x3e9d7b78, 0x0183fc00, 0x12dcbfdb, 0xe2e2c38e)
    ensures Row(s, 3,
      0xc8215c1a, 0xb73679a2, 0xe5bc3909, 0x32663c5b,
      0x9d209d67, 0xec8726cb, 0x702138a4, 0xd3b7973b)
    ensures Row(s, 4,
      0x93f5997f, 0x3b68ba73, 0xaff4ffc1, 0xf10a5c62,
      0x0a8b3996, 0x72af830a, 0x9409e33e, 0x24641522)
    ensures Row(s, 5,
      0x9f47bf94, 0xf0a64f5a, 0x3e246a79, 0x27333ba3,
      0x0c4763f2, 0x840abf27, 0x7a290d5d, 0x065c43da)
    ensures Row(s, 6,
      0xfb3e89cb, 0xcc7617db, 0xb9e66c34, 0xa9993667,
      0x84badedd, 0xc21462bc, 0x1487472c, 0xb20f7a99)
    ensures Row(s, 7,
      0xef57b9cd, 0xebe6b238, 0x9fe3095e, 0x78bc8d4b,
      0xa43fcf15, 0x668b2ff8, 0xeeaba2cc, 0x12b1edeb)
  {
    hide IsSchedule;
    FirstWords(s);
    Word(s, 16, 0x00000000, 0x00000000, 0x00000000, 0x61626380, 0x61626380);
    Word(s, 17, 0x00000018, 0x00000000, 0x00000000, 0x00000000, 0x000f0000);
    Word(s, 18, 0x61626380, 0x00000000, 0x00000000, 0x00000000, 0x7da86405);
    Word(s, 19, 0x000f0000, 0x00000000, 0x00000000, 0x00000000, 0x600003c6);
    Word(s, 20, 0x7da86405, 0x00000000, 0x00000000, 0x00000000, 0x3e9d7b78);
    Word(s, 21, 0x600003c6, 0x00000000, 0x00000000, 0x00000000, 0x0183fc00);
    Word(s, 22, 0x3e9d7b78, 0x00000018, 0x00000000, 0x00000000, 0x12dcbfdb);
    Word(s, 23, 0x0183fc00, 0x61626380, 0x00000000, 0x00000000, 0xe2e2c38e);
    Word(s, 24, 0x12dcbfdb, 0x000f0000, 0x00000000, 0x00000000, 0xc8215c1a);
    Word(s, 25, 0xe2e2c38e, 0x7da86405, 0x00000000, 0x00000000, 0xb73679a2);
    Word(s, 26, 0xc8215c1a, 0x600003c6, 0x00000000, 0x00000000, 0xe5bc3909);
    Word(s, 27, 0xb73679a2, 0x3e9d7b78, 0x00000000, 0x00000000, 0x32663c5b);
    Word(s, 28, 0xe5bc3909, 0x0183fc00, 0x00000000, 0x00000000, 0x9d209d67);
    Word(s, 29, 0x32663c5b, 0x12dcbfdb, 0x00000000, 0x00000000, 0xec8726cb);
    Word(s, 30, 0x9d209d67, 0xe2e2c38e, 0x00000018, 0x00000000, 0x702138a4);
    Word(s, 31, 0xec8726cb, 0xc8215c1a, 0x61626380, 0x00000018, 0xd3b7973b);
    Word(s, 32, 0x702138a4, 0xb73679a2, 0x000f0000, 0x61626380, 0x93f5997f);
    Word(s, 33, 0xd3b7973b, 0xe5bc3909, 0x7da86405, 0x000f0000, 0x3b68ba73);
    Word(s, 34, 0x93f5997f, 0x32663c5b, 0x600003c6, 0x7da86405, 0xaff4ffc1);
    Word(s, 35, 0x3b68ba73, 0x9d209d67, 0x3e9d7b78, 0x600003c6, 0xf10a5c62);
    Word(s, 36, 0xaff4ffc1, 0xec8726cb, 0x0183fc00, 0x3e9d7b78, 0x0a8b3996);
    Word(s, 37, 0xf10a5c62, 0x702138a4, 0x12dcbfdb, 0x0183fc00, 0x72af830a);
    Word(s, 38, 0x0a8b3996, 0xd3b7973b, 0xe2e2c38e, 0x12dcbfdb, 0x9409e33e);
    Word(s, 39, 0x72af830a, 0x93f5997f, 0xc8215c1a, 0xe2e2c38e, 0x24641522);
    Word(s, 40, 0x9409e33e, 0x3b68ba73, 0xb73679a2, 0xc8215c1a, 0x9f47bf94);
    Word(s, 41, 0x24641522, 0xaff4ffc1, 0xe5bc3909, 0xb73679a2, 0xf0a64f5a);
    Word(s, 42, 0x9f47bf94, 0xf10a5c62, 0x32663c5b, 0xe5bc3909, 0x3e246a79);
    Word(s, 43, 0xf0a64f5a, 0x0a8b3996, 0x9d209d67, 0x32663c5b, 0x27333ba3);
    Word(s, 44, 0x3e246a79, 0x72af830a, 0xec8726cb, 0x9d209d67, 0x0c4763f2);
    Word(s, 45, 0x27333ba3, 0x9409e33e, 0x702138a4, 0xec8726cb, 0x840abf27);
    Word(s, 46, 0x0c4763f2, 0x24641522, 0xd3b7973b, 0x702138a4, 0x7a290d5d);
    Word(s, 47, 0x840abf27, 0x9f47bf94, 0x93f5997f, 0xd3b7973b, 0x065c43da);
    Word(s, 48, 0x7a290d5d, 0xf0a64f5a, 0x3b68ba73, 0x93f5997f, 0xfb3e89cb);
    Word(s, 49, 0x065c43da, 0x3e246a79, 0xaff4ffc1, 0x3b68ba73, 0xcc7617db);
    Word(s, 50, 0xfb3e89cb, 0x27333ba3, 0xf10a5c62, 0xaff4ffc1, 0xb9e66c34);
    Word(s, 51, 0xcc7617db, 0x0c4763f2, 0x0a8b3996, 0xf10a5c62, 0xa9993667);
    Word(s, 52, 0xb9e66c34, 0x840abf27, 0x72af830a, 0x0a8b3996, 0x84badedd);
    Word(s, 53, 0xa9993667, 0x7a290d5d, 0x9409e33e, 0x72af830a, 0xc21462bc);
    Word(s, 54, 0x84badedd, 0x065c43da, 0x24641522, 0x9409e33e, 0x1487472c);
    Word(s, 55, 0xc21462bc, 0xfb3e89cb, 0x9f47bf94, 0x24641522, 0xb20f7a99);
    Word(s, 56, 0x1487472c, 0xcc7617db, 0xf0a64f5a, 0x9f47bf94, 0xef57b9cd);
    Word(s, 57, 0xb20f7a99, 0xb9e66c34, 0x3e246a79, 0xf0a64f5a, 0xebe6b238);
    Word(s, 58, 0xef57b9cd, 0xa9993667, 0x27333ba3, 0x3e246a79, 0x9fe3095e);
    Word(s, 59, 0xebe6b238, 0x84badedd, 0x0c4763f2, 0x27333ba3, 0x78bc8d4b);
    Word(s, 60, 0x9fe3095e, 0xc21462bc, 0x840abf27, 0x0c4763f2, 0xa43fcf15);
    Word(s, 61, 0x78bc8d4b, 0x1487472c, 0x7a290d5d, 0x840abf27, 0x668b2ff8);
    Word(s, 62, 0xa43fcf15, 0xb20f7a99, 0x065c43da, 0x7a290d5d, 0xeeaba2cc);
    Word(s, 63, 0x668b2ff8, 0xef57b9cd, 0xfb3e89cb, 0x065c43da, 0x12b1edeb);
  }

  // ---- the rounds -------------------------------------------------------------------------------

  function Shifted(r: Registers, a: Word32, e: Word32): Registers {
    Registers(a, r.a, r.b, r.c, e, r.e, r.f, r.g)
  }

  /** The working variables before every round, and at the end. */
  ghost predicate IsTrace(rs: seq<Registers>) {
    |rs| == 65 && forall t :: 0 <= t <= 64 ==> rs[t] == Rounds(INITIAL, Block(), t)
  }

  /** One round, which makes a new a and a new e. */
  lemma OneRound(s: seq<Word32>, rs: seq<Registers>, t: nat, k: Word32, w: Word32, a: Word32, e: Word32)
    requires IsSchedule(s) && IsTrace(rs) && t < 64 && RoundConstant(t) == k && s[t] == w
    requires Step(rs[t], k, w) == Shifted(rs[t], a, e)
    ensures rs[t + 1] == Shifted(rs[t], a, e)
  {
    hide Step, RoundConstant, Block, Schedule;
    NextRound(INITIAL, Block(), t);
  }

  lemma Rounds0(s: seq<Word32>, rs: seq<Registers>)
    requires IsSchedule(s) && IsTrace(rs)
    ensures rs[8] == Registers(
        0x85a07b5f, 0xe5030380, 0x2b4209f5, 0x04409a6a,
        0x0c657a79, 0x9b27a401, 0x714260ad, 0x43ada245)
  {
    hide IsSchedule, IsTrace, RoundConstant;
    FirstWords(s);
    NoRound(rs);
    ConstantsFrom0();
    OneRound(s, rs, 0, 0x428a2f98, 0x61626380, 0x5d6aebcd, 0xfa2a4622);
    OneRound(s, rs, 1, 0x71374491, 0x00000000, 0x5a6ad9ad, 0x78ce7989);
    OneRound(s, rs, 2, 0xb5c0fbcf, 0x00000000, 0xc8c347a7, 0xf92939eb);
    OneRound(s, rs, 3, 0xe9b5dba5, 0x00000000, 0xd550f666, 0x24e00850);
    OneRound(s, rs, 4, 0x3956c25b, 0x00000000, 0x04409a6a, 0x43ada245);
    OneRound(s, rs, 5, 0x59f111f1, 0x00000000, 0x2b4209f5, 0x714260ad);
    OneRound(s, rs, 6, 0x923f82a4, 0x00000000, 0xe5030380, 0x9b27a401);
    OneRound(s, rs, 7, 0xab1c5ed5, 0x00000000, 0x85a07b5f, 0x0c657a79);
  }

  lemma Rounds1(s: seq<Word32>, rs: seq<Registers>)
    requires IsSchedule(s) && IsTrace(rs)
    ensures rs[16] == Registers(
        0xb0fa238e, 0xc0645fde, 0xd932eb16, 0x87912990,
        0x07590dcd, 0x0b92f20c, 0x745a48de, 0x1e578218)
  {
    hide IsSchedule, IsTrace, RoundConstant;
    Rounds0(s, rs);
    FirstWords(s);
    ConstantsFrom8();
    OneRound(s, rs, 8, 0xd807aa98, 0x00000000, 0x8e04ecb9, 0x32ca2d8c);
    OneRound(s, rs, 9, 0x12835b01, 0x00000000, 0x8c87346b, 0x1cc92596);
    OneRound(s, rs, 10, 0x243185be, 0x00000000, 0x4798a3f4, 0x436b23e8);
    OneRound(s, rs, 11, 0x550c7dc3, 0x00000000, 0xf71fc5a9, 0x816fd6e9);
    OneRound(s, rs, 12, 0x72be5d74, 0x00000000, 0x87912990, 0x1e578218);
    OneRound(s, rs, 13, 0x80deb1fe, 0x00000000, 0xd932eb16, 0x745a48de);
    OneRound(s, rs, 14, 0x9bdc06a7, 0x00000000, 0xc0645fde, 0x0b92f20c);
    OneRound(s, rs, 15, 0xc19bf174, 0x00000018, 0xb0fa238e, 0x07590dcd);
  }

  lemma Rounds2(s: seq<Word32>, rs: seq<Registers>)
    requires IsSchedule(s) && IsTrace(rs)
    ensures rs[24] == Registers(
        0xc5d53d8d, 0xa7a3623f, 0xc2606d6d, 0x9dc68b63,
        0xaa47c347, 0x49f5114a, 0xe1257970, 0x8ada8930)
  {
    hide IsSchedule, IsTrace, RoundConstant;
    Rounds1(s, rs);
    LaterWords(s);
    ConstantsFrom16();
    OneRound(s, rs, 16, 0xe49b69c1, 0x61626380, 0x21da9a9b, 0x8034229c);
    OneRound(s, rs, 17, 0xefbe4786, 0x000f0000, 0xc2fbd9d1, 0x846ee454);
    OneRound(s, rs, 18, 0x0fc19dc6, 0x7da86405, 0xfe777bbf, 0xcc899961);
    OneRound(s, rs, 19, 0x240ca1cc, 0x600003c6, 0xe1f20c33, 0xb0638179);
    OneRound(s, rs, 20, 0x2de92c6f, 0x3e9d7b78, 0x9dc68b63, 0x8ada8930);
    OneRound(s, rs, 21, 0x4a7484aa, 0x0183fc00, 0xc2606d6d, 0xe1257970);
    OneRound(s, rs, 22, 0x5cb0a9dc, 0x12dcbfdb, 0xa7a3623f, 0x49f5114a);
    OneRound(s, rs, 23, 0x76f988da, 0xe2e2c38e, 0xc5d53d8d, 0xaa47c347);
  }

  lemma Rounds3(s: seq<Word32>, rs: seq<Registers>)
    requires IsSchedule(s) && IsTrace(rs)
    ensures rs[32] == Registers(
        0x73b33bf5, 0xea992a22, 0xa0060b30, 0x363482c9,
        0xba591112, 0x0109ab3a, 0xade79437, 0x6112a3b7)
  {
    hide IsSchedule, IsTrace, RoundConstant;
    Rounds2(s, rs);
    LaterWords(s);
    ConstantsFrom24();
    OneRound(s, rs, 24, 0x983e5152, 0xc8215c1a, 0x1c2c2838, 0x2823ef91);
    OneRound(s, rs, 25, 0xa831c66d, 0xb73679a2, 0xcde8037d, 0x14383d8e);
    OneRound(s, rs, 26, 0xb00327c8, 0xe5bc3909, 0xb62ec4bc, 0xc74c6516);
    OneRound(s, rs, 27, 0xbf597fc7, 0x32663c5b, 0x77d37528, 0xedffbff8);
    OneRound(s, rs, 28, 0xc6e00bf3, 0x9d209d67, 0x363482c9, 0x6112a3b7);
    OneRound(s, rs, 29, 0xd5a79147, 0xec8726cb, 0xa0060b30, 0xade79437);
    OneRound(s, rs, 30, 0x06ca6351, 0x702138a4, 0xea992a22, 0x0109ab3a);
    OneRound(s, rs, 31, 0x14292967, 0xd3b7973b, 0x73b33bf5, 0xba591112);
  }

  lemma Rounds4(s: seq<Word32>, rs: seq<Registers>)
    requires IsSchedule(s) && IsTrace(rs)
    ensures rs[40] == Registers(
        0x79ea687a, 0x6dc57a8a, 0x34df1604, 0x41a65cb1,
        0x1efbc0a0, 0xf0781bc8, 0xa507a53d, 0x0772a26b)
  {
    hide IsSchedule, IsTrace, RoundConstant;
    Rounds3(s, rs);
    LaterWords(s);
    ConstantsFrom32();
    OneRound(s, rs, 32, 0x27b70a85, 0x93f5997f, 0x98e12507, 0x9cd9f5f6);
    OneRound(s, rs, 33, 0x2e1b2138, 0x3b68ba73, 0xfe604df5, 0x59249dd3);
    OneRound(s, rs, 34, 0x4d2c6dfc, 0xaff4ffc1, 0xa9a7738c, 0x085f3833);
    OneRound(s, rs, 35, 0x53380d13, 0xf10a5c62, 0x65a0cfe4, 0xf4b002d6);
    OneRound(s, rs, 36, 0x650a7354, 0x0a8b3996, 0x41a65cb1, 0x0772a26b);
    OneRound(s, rs, 37, 0x766a0abb, 0x72af830a, 0x34df1604, 0xa507a53d);
    OneRound(s, rs, 38, 0x81c2c92e, 0x9409e33e, 0x6dc57a8a, 0xf0781bc8);
    OneRound(s, rs, 39, 0x92722c85, 0x24641522, 0x79ea687a, 0x1efbc0a0);
  }

  lemma Rounds5(s: seq<Word32>, rs: seq<Registers>)
    requires IsSchedule(s) && IsTrace(rs)
    ensures rs[48] == Registers(
        0x4172328d, 0xa14c14b0, 0x72ab4b91, 0x26628815,
        0xfecf0bc6, 0xd57b94a9, 0xb7755da1, 0xa80f11f0)
  {
    hide IsSchedule, IsTrace, RoundConstant;
    Rounds4(s, rs);
    LaterWords(s);
    ConstantsFrom40();
    OneRound(s, rs, 40, 0xa2bfe8a1, 0x9f47bf94, 0xd6670766, 0x26352d63);
    OneRound(s, rs, 41, 0xa81a664b, 0xf0a64f5a, 0xdf46652f, 0x838b2711);
    OneRound(s, rs, 42, 0xc24b8b70, 0x3e246a79, 0x17aa0dfe, 0xdecd4715);
    OneRound(s, rs, 43, 0xc76c51a3, 0x27333ba3, 0x9d4baf93, 0xfda24c2e);
    OneRound(s, rs, 44, 0xd192e819, 0x0c4763f2, 0x26628815, 0xa80f11f0);
    OneRound(s, rs, 45, 0xd6990624, 0x840abf27, 0x72ab4b91, 0xb7755da1);
    OneRound(s, rs, 46, 0xf40e3585, 0x7a290d5d, 0xa14c14b0, 0xd57b94a9);
    OneRound(s, rs, 47, 0x106aa070, 0x065c43da, 0x4172328d, 0xfecf0bc6);
  }

  lemma Rounds6(s: seq<Word32>, rs: seq<Registers>)
    requires IsSchedule(s) && IsTrace(rs)
    ensures rs[56] == Registers(
        0x38cc9913, 0x3ec45cdb, 0xf5702fdb, 0x101fd28f,
        0x54cb266b, 0xe50e1b4f, 0x9f4787c3, 0x529e7d00)
  {
    hide IsSchedule, IsTrace, RoundConstant;
    Rounds5(s, rs);
    LaterWords(s);
    ConstantsFrom48();
    OneRound(s, rs, 48, 0x19a4c116, 0xfb3e89cb, 0x05757ceb, 0xbd714038);
    OneRound(s, rs, 49, 0x1e376c08, 0xcc7617db, 0xf11bfaa8, 0x6e5c390c);
    OneRound(s, rs, 50, 0x2748774c, 0xb9e66c34, 0x7a0508a1, 0x52f1ccf7);
    OneRound(s, rs, 51, 0x34b0bcb5, 0xa9993667, 0x886e7a22, 0x49231c1e);
    OneRound(s, rs, 52, 0x391c0cb3, 0x84badedd, 0x101fd28f, 0x529e7d00);
    OneRound(s, rs, 53, 0x4ed8aa4a, 0xc21462bc, 0xf5702fdb, 0x9f4787c3);
    OneRound(s, rs, 54, 0x5b9cca4f, 0x1487472c, 0x3ec45cdb, 0xe50e1b4f);
    OneRound(s, rs, 55, 0x682e6ff3, 0xb20f7a99, 0x38cc9913, 0x54cb266b);
  }

  lemma Rounds7(s: seq<Word32>, rs: seq<Registers>)
    requires IsSchedule(s) && IsTrace(rs)
    ensures rs[64] == Registers(
        0x506e3058, 0xd39a2165, 0x04d24d6c, 0xb85e2ce9,
        0x5ef50f24, 0xfb121210, 0x948d25b6, 0x961f4894)
  {
    hide IsSchedule, IsTrace, RoundConstant;
    Rounds6(s, rs);
    LaterWords(s);
    ConstantsFrom56();
    OneRound(s, rs, 56, 0x748f82ee, 0xef57b9cd, 0xfcd1887b, 0x9b5e906c);
    OneRound(s, rs, 57, 0x78a5636f, 0xebe6b238, 0xc062d46f, 0x7e44008e);
    OneRound(s, rs, 58, 0x84c87814, 0x9fe3095e, 0xffb70472, 0x6d83bfc6);
    OneRound(s, rs, 59, 0x8cc70208, 0x78bc8d4b, 0xb6ae8fff, 0xb21bad3d);
    OneRound(s, rs, 60, 0x90befffa, 0xa43fcf15, 0xb85e2ce9, 0x961f4894);
    OneRound(s, rs, 61, 0xa4506ceb, 0x668b2ff8, 0x04d24d6c, 0x948d25b6);
    OneRound(s, rs, 62, 0xbef9a3f7, 0xeeaba2cc, 0xd39a2165, 0xfb121210);
    OneRound(s, rs, 63, 0xc67178f2, 0x12b1edeb, 0x506e3058, 0x5ef50f24);
  }

  lemma NoRound(rs: seq<Registers>)
    requires IsTrace(rs)
    ensures rs[0] == INITIAL
  {
    hide Block;
  }

  /** The published digest. */
  lemma DigestOfAbc()
    ensures Digest(ABC) == [
      0xba, 0x78, 0x16, 0xbf, 0x8f, 0x01, 0xcf, 0xea, 0x41, 0x41, 0x40, 0xde, 0x5d, 0xae, 0x22, 0x23,
      0xb0, 0x03, 0x61, 0xa3, 0x96, 0x17, 0x7a, 0x9c, 0xb4, 0x10, 0xff, 0x61, 0xf2, 0x00, 0x15, 0xad]
  {
    hide Block, Padded, Compress, HashBytes, BigEndian32, HashBlocks;
    PaddedAbc();
    Compressed();
    OneBlock(Block());
    WordsAsBytes(Compress(INITIAL, Block()));
    BytesOfWords();
  }

  lemma Compressed()
    ensures Compress(INITIAL, Block()) == Registers(
      0xba7816bf, 0x8f01cfea, 0x414140de, 0x5dae2223,
      0xb00361a3, 0x96177a9c, 0xb410ff61, 0xf20015ad)
  {
    hide Compress, Rounds, IsTrace, IsSchedule;
    var s, rs := Traced(Block());
    Rounds7(s, rs);
    LastRound(rs);
  }

  lemma Traced(b: seq<Byte>) returns (s: seq<Word32>, rs: seq<Registers>)
    requires b == Block()
    ensures IsSchedule(s) && IsTrace(rs)
  {
    hide Block;
    s := seq(64, t requires 0 <= t < 64 => Schedule(b, t));
    rs := seq(65, t requires 0 <= t < 65 => Rounds(INITIAL, b, t));
    hide Schedule, Rounds;
  }

  lemma LastRound(rs: seq<Registers>)
    requires IsTrace(rs)
    ensures |rs| == 65 && Compress(INITIAL, Block()) == AddRegisters(INITIAL, rs[64])
  {
    hide Block, Rounds;
  }

  lemma OneBlock(s: seq<Byte>)
    requires |s| == BLOCK
    ensures HashBlocks(INITIAL, s) == Compress(INITIAL, s)
  {
    hide Compress;
    assert s[..BLOCK] == s && s[BLOCK..] == [];
    assert HashBlocks(Compress(INITIAL, s), []) == Compress(INITIAL, s);
  }

  lemma BytesOfWords()
    ensures BigEndian32(0xba7816bf) == [0xba, 0x78, 0x16, 0xbf]
    ensures BigEndian32(0x8f01cfea) == [0x8f, 0x01, 0xcf, 0xea]
    ensures BigEndian32(0x414140de) == [0x41, 0x41, 0x40, 0xde]
    ensures BigEndian32(0x5dae2223) == [0x5d, 0xae, 0x22, 0x23]
    ensures BigEndian32(0xb00361a3) == [0xb0, 0x03, 0x61, 0xa3]
    ensures BigEndian32(0x96177a9c) == [0x96, 0x17, 0x7a, 0x9c]
    ensures BigEndian32(0xb410ff61) == [0xb4, 0x10, 0xff, 0x61]
    ensures BigEndian32(0xf20015ad) == [0xf2, 0x00, 0x15, 0xad]
  {}

  lemma WordsAsBytes(r: Registers)
    ensures HashBytes(r, 8) ==
      BigEndian32(r.a) + BigEndian32(r.b) + BigEndian32(r.c) + BigEndian32(r.d)
      + BigEndian32(r.e) + BigEndian32(r.f) + BigEndian32(r.g) + BigEndian32(r.h)
  {
    hide BigEndian32;
    assert HashBytes(r, 0) == [];
    assert HashBytes(r, 1) == BigEndian32(r.a);
    assert HashBytes(r, 2) == HashBytes(r, 1) + BigEndian32(r.b);
    assert HashBytes(r, 3) == HashBytes(r, 2) + BigEndian32(r.c);
    assert HashBytes(r, 4) == HashBytes(r, 3) + BigEndian32(r.d);
    assert HashBytes(r, 5) == HashBytes(r, 4) + BigEndian32(r.e);
    assert HashBytes(r, 6) == HashBytes(r, 5) + BigEndian32(r.f);
    assert HashBytes(r, 7) == HashBytes(r, 6) + BigEndian32(r.g);
  }
}
