/**
 The streaming object: SHA256Init, SHA256Update, SHA256Final and the transform
 over the context's buffer.
 */
module Sha256Context {
  import opened Sha256

  /** Storing a word where the host, a little-endian machine, keeps word j of the buffer. */
  method StoreWord(buffer: array<Byte>, j: nat, w: Word32)
    requires 4 * j + 4 <= buffer.Length
    modifies buffer
    ensures LoadWord(buffer[..], j) == w
    ensures buffer[4 * j..4 * j + 4] == [LowByte(w), SecondByte(w), ThirdByte(w), HighByte(w)]
    ensures forall k :: 0 <= k < buffer.Length && !(4 * j <= k < 4 * j + 4) ==> buffer[k] == old(buffer[k])
  {
    BytesMakeWord(w);
    hide Together, LowByte, SecondByte, ThirdByte, HighByte;
    buffer[4 * j], buffer[4 * j + 1] := LowByte(w), SecondByte(w);
    buffer[4 * j + 2], buffer[4 * j + 3] := ThirdByte(w), HighByte(w);
  }

  /** The last sixteen words of the schedule before round j, kept in a circle. */
  ghost predicate HoldsSchedule(buffer: seq<Byte>, block: seq<Byte>, j: nat)
    requires |buffer| == BUFFER && |block| == BLOCK
  {
    forall i :: 0 <= i < j && j <= i + 16 ==> LoadWord(buffer, i % 16) == Schedule(block, i)
  }

  /** The first j words of the block are in the buffer. */
  ghost predicate Loaded(buffer: seq<Byte>, block: seq<Byte>, j: nat)
    requires |buffer| == BUFFER && |block| == BLOCK && j <= 16
  {
    forall i :: 0 <= i < j ==> LoadWord(buffer, i) == Schedule(block, i)
  }

  /** The words of the block from the j-th on are still where they come from. */
  ghost predicate Unread(data: array<Byte>, from: nat, block: seq<Byte>, j: nat)
    requires |block| == BLOCK && from + BLOCK <= data.Length
    reads data
  {
    forall k :: 4 * j <= k < BLOCK ==> data[from + k] == block[k]
  }

  lemma NothingRead(data: array<Byte>, from: nat, block: seq<Byte>)
    requires from + BLOCK <= data.Length && block == data[from..from + BLOCK]
    ensures Unread(data, from, block, 0)
  {}

  lemma NoneLoaded(buffer: seq<Byte>, block: seq<Byte>)
    requires |buffer| == BUFFER && |block| == BLOCK
    ensures Loaded(buffer, block, 0)
  {}

  lemma OneMoreLoaded(before: seq<Byte>, after: seq<Byte>, block: seq<Byte>, j: nat)
    requires |before| == |after| == BUFFER && |block| == BLOCK && j < 16 && Loaded(before, block, j)
    requires forall k :: 0 <= k < BUFFER && !(4 * j <= k < 4 * j + 4) ==> after[k] == before[k]
    requires LoadWord(after, j) == Schedule(block, j)
    ensures Loaded(after, block, j + 1)
  {
    hide Schedule, LoadWord;
    forall i | 0 <= i < j ensures LoadWord(after, i) == Schedule(block, i) {
      LoadUnchanged(before, after, i);
    }
  }

  lemma AllLoaded(buffer: seq<Byte>, block: seq<Byte>)
    requires |buffer| == BUFFER && |block| == BLOCK && Loaded(buffer, block, 16)
    ensures HoldsSchedule(buffer, block, 16)
  {
    hide LoadWord, Schedule;
  }

  class Context {
    var st: Registers
    var bitcount: nat
    const buffer: array<Byte>

    constructor ()
      ensures buffer.Length == BUFFER && fresh(buffer)
    {
      buffer := new Byte[BUFFER];
      st, bitcount := INITIAL, 0;
    }

    /** Word j of the block, most significant byte first. */
    method LoadBlockWord(data: array<Byte>, from: nat, ghost block: seq<Byte>, j: nat) returns (w: Word32)
      requires |block| == BLOCK && j < 16 && from + BLOCK <= data.Length
      requires forall k :: 4 * j <= k < 4 * j + 4 ==> data[from + k] == block[k]
      ensures w == Schedule(block, j)
    {
      w := Together(data[from + 4 * j], data[from + 4 * j + 1], data[from + 4 * j + 2], data[from + 4 * j + 3]);
      hide Together;
    }

    /** Word j of the block, kept in place j of the buffer, which may be where it comes from. */
    method KeepWord(data: array<Byte>, from: nat, ghost block: seq<Byte>, j: nat) returns (w: Word32)
      requires buffer.Length == BUFFER && |block| == BLOCK && j < 16 && from + BLOCK <= data.Length
      requires data == buffer ==> from == 0
      requires Loaded(buffer[..], block, j) && Unread(data, from, block, j)
      modifies buffer
      ensures w == Schedule(block, j) && Loaded(buffer[..], block, j + 1)
      ensures Unread(data, from, block, j + 1)
      ensures buffer[BLOCK..] == old(buffer[BLOCK..])
    {
      hide Schedule, LoadWord, Loaded, LowByte, SecondByte, ThirdByte, HighByte;
      ghost var before := buffer[..];
      w := LoadBlockWord(data, from, block, j);
      StoreWord(buffer, j, w);
      OneMoreLoaded(before, buffer[..], block, j);
    }

    /** One round: the two sums, and the eight assignments. */
    static method Round(r: Registers, k: Word32, w: Word32) returns (s: Registers)
      ensures s == Step(r, k, w)
    {
      hide Plus, Ch, Maj, BigSigma0, BigSigma1;
      var a, b, c, d, e, f, g, h := r.a, r.b, r.c, r.d, r.e, r.f, r.g, r.h;
      var t1 := Plus(Plus(Plus(Plus(h, BigSigma1(e)), Ch(e, f, g)), k), w);
      var t2 := Plus(BigSigma0(a), Maj(a, b, c));
      h := g;
      g := f;
      f := e;
      e := Plus(d, t1);
      d := c;
      c := b;
      b := a;
      a := Plus(t1, t2);
      s := Registers(a, b, c, d, e, f, g, h);
    }

    /** One of them. */
    method FirstRound(data: array<Byte>, from: nat, ghost block: seq<Byte>, ghost r0: Registers, r: Registers, j: nat)
      returns (s: Registers)
      requires buffer.Length == BUFFER && |block| == BLOCK && j < 16 && from + BLOCK <= data.Length
      requires data == buffer ==> from == 0
      requires r == Rounds(r0, block, j)
      requires Loaded(buffer[..], block, j) && Unread(data, from, block, j)
      modifies buffer
      ensures s == Rounds(r0, block, j + 1)
      ensures Loaded(buffer[..], block, j + 1) && Unread(data, from, block, j + 1)
      ensures buffer[BLOCK..] == old(buffer[BLOCK..])
    {
      hide Rounds, Schedule, Step, RoundConstant, Loaded, Unread;
      var w := KeepWord(data, from, block, j);
      s := Round(r, RoundConstant(j), w);
      NextRound(r0, block, j);
    }

    /** The first sixteen rounds: block words as they come, kept in the buffer. */
    method FirstRounds(data: array<Byte>, from: nat, ghost block: seq<Byte>, r0: Registers) returns (r: Registers)
      requires buffer.Length == BUFFER && from + BLOCK <= data.Length && block == data[from..from + BLOCK]
      requires data == buffer ==> from == 0
      modifies buffer
      ensures r == Rounds(r0, block, 16)
      ensures HoldsSchedule(buffer[..], block, 16)
      ensures buffer[BLOCK..] == old(buffer[BLOCK..])
    {
      assert Rounds(r0, block, 0) == r0;
      hide Rounds, HoldsSchedule, Schedule, Step, RoundConstant, Loaded, Unread;
      NoneLoaded(buffer[..], block);
      NothingRead(data, from, block);
      r := r0;
      var j := 0;
      while j < 16
        invariant j <= 16 && r == Rounds(r0, block, j)
        invariant Loaded(buffer[..], block, j) && Unread(data, from, block, j)
        invariant buffer[BLOCK..] == old(buffer[BLOCK..])
      {
        r := FirstRound(data, from, block, r0, r, j);
        j := j + 1;
      }
      AllLoaded(buffer[..], block);
    }

    /** Word j of the schedule from the sixteen words before it. */
    method NextWord(j: nat, ghost block: seq<Byte>) returns (w: Word32)
      requires buffer.Length == BUFFER && |block| == BLOCK && 16 <= j
      requires HoldsSchedule(buffer[..], block, j)
      ensures w == Schedule(block, j)
    {
      var s0 := SmallSigma0(ReadWord((j + 1) % 16));
      var s1 := SmallSigma1(ReadWord((j + 14) % 16));
      Circle(j);
      assert ReadWord((j + 1) % 16) == Schedule(block, j - 15) && ReadWord((j + 14) % 16) == Schedule(block, j - 2);
      assert ReadWord((j + 9) % 16) == Schedule(block, j - 7) && ReadWord(j % 16) == Schedule(block, j - 16);
      w := Plus(ReadWord(j % 16), Plus(Plus(s1, ReadWord((j + 9) % 16)), s0));
      AddOrder(Schedule(block, j - 16), s1, Schedule(block, j - 7), s0);
    }

    /** Word j of the schedule, written over word j - 16. */
    method ExtendSchedule(j: nat, ghost block: seq<Byte>) returns (w: Word32)
      requires buffer.Length == BUFFER && |block| == BLOCK && 16 <= j
      requires HoldsSchedule(buffer[..], block, j)
      modifies buffer
      ensures w == Schedule(block, j) && HoldsSchedule(buffer[..], block, j + 1)
      ensures buffer[BLOCK..] == old(buffer[BLOCK..])
    {
      hide Schedule, LoadWord;
      w := NextWord(j, block);
      ghost var before := buffer[..];
      StoreWord(buffer, j % 16, w);
      forall i | 0 <= i < j + 1 && j + 1 <= i + 16 ensures LoadWord(buffer[..], i % 16) == Schedule(block, i) {
        if i < j {
          Apart(i, j);
          LoadUnchanged(before, buffer[..], i % 16);
        }
      }
      assert forall k :: BLOCK <= k < BUFFER ==> buffer[k] == before[k];
    }

    function ReadWord(j: nat): Word32
      requires buffer.Length == BUFFER && j < 16
      reads buffer
    {
      LoadWord(buffer[..], j)
    }

    /** The remaining rounds, with the schedule running round in sixteen words. */
    method LaterRounds(ghost block: seq<Byte>, ghost r0: Registers, r16: Registers) returns (r: Registers)
      requires buffer.Length == BUFFER && |block| == BLOCK && r16 == Rounds(r0, block, 16)
      requires HoldsSchedule(buffer[..], block, 16)
      modifies buffer
      ensures r == Rounds(r0, block, 64)
      ensures buffer[BLOCK..] == old(buffer[BLOCK..])
    {
      hide Rounds, HoldsSchedule, Schedule, Step, RoundConstant;
      r := r16;
      var j := 16;
      while j < 64
        invariant 16 <= j <= 64 && r == Rounds(r0, block, j)
        invariant HoldsSchedule(buffer[..], block, j)
        invariant buffer[BLOCK..] == old(buffer[BLOCK..])
      {
        var w := ExtendSchedule(j, block);
        r := Round(r, RoundConstant(j), w);
        NextRound(r0, block, j);
        j := j + 1;
      }
    }

    /**
     SHA256Transform: the standard's compression of the block, also when the block
     is the front of the context's own buffer. The block is gone afterwards.
     */
    method Transform(data: array<Byte>, from: nat)
      requires buffer.Length == BUFFER && from + BLOCK <= data.Length && (data == buffer ==> from == 0)
      modifies this`st, buffer
      ensures st == Compress(old(st), old(data[from..from + BLOCK]))
      ensures buffer[BLOCK..] == old(buffer[BLOCK..])
    {
      ghost var block := data[from..from + BLOCK];
      hide Rounds, HoldsSchedule;
      var r := FirstRounds(data, from, block, st);
      r := LaterRounds(block, st, r);
      st := AddRegisters(st, r);
    }

    // ---- streaming ---------------------------------------------------------------------------------

    /** The context after the bytes of m: their whole blocks are compressed, the rest is in the buffer. */
    ghost predicate Absorbed(m: seq<Byte>)
      reads this, buffer
    {
      && buffer.Length == BUFFER
      && st == HashBlocks(INITIAL, m)
      && buffer[..Used(|m|)] == Tail(m)
    }

    /** SHA256Init and any updates, with these bytes in all. */
    ghost predicate Holds(m: seq<Byte>)
      reads this, buffer
    {
      Absorbed(m) && bitcount == BitCount(|m|)
    }

    /** SHA256Init */
    method Init()
      requires buffer.Length == BUFFER
      modifies this, buffer
      ensures Holds([])
    {
      hide HashBlocks, Tail, Used, BitCount;
      NothingHashed();
      st := INITIAL;
      ClearBytes(0, BLOCK);
      bitcount := 0;
      assert buffer[..0] == [];
    }

    method ClearBytes(at: nat, n: nat)
      requires buffer.Length == BUFFER && at + n <= BLOCK
      modifies buffer
      ensures buffer[..at] == old(buffer[..at]) && buffer[at..at + n] == Zeros(n)
      ensures buffer[at + n..] == old(buffer[at + n..])
    {
      for i := 0 to n
        invariant buffer[..at] == old(buffer[..at]) && buffer[at..at + i] == Zeros(i)
        invariant buffer[at + n..] == old(buffer[at + n..])
      {
        buffer[at + i] := 0;
      }
    }

    /** bcopy */
    method CopyIn(at: nat, data: array<Byte>, from: nat, n: nat)
      requires buffer.Length == BUFFER && at + n <= BLOCK && from + n <= data.Length && data != buffer
      modifies buffer
      ensures buffer[..at] == old(buffer[..at]) && buffer[at..at + n] == data[from..from + n]
    {
      for i := 0 to n
        invariant buffer[..at] == old(buffer[..at]) && buffer[at..at + i] == data[from..from + i]
      {
        buffer[at + i] := data[from + i];
      }
    }

    /** A buffer filled up behind the rest of m is compressed. */
    method CompressBuffer(ghost m: seq<Byte>, ghost piece: seq<Byte>)
      requires buffer.Length == BUFFER && st == HashBlocks(INITIAL, m)
      requires Used(|m|) + |piece| == BLOCK && buffer[..BLOCK] == Tail(m) + piece
      modifies this`st, buffer
      ensures Absorbed(m + piece) && Used(|m + piece|) == 0
    {
      FilledBlock(INITIAL, m, piece);
      hide HashBlocks, Compress, Used;
      assert buffer[0..0 + BLOCK] == buffer[..BLOCK];
      Transform(buffer, 0);
    }

    /** SHA256Update */
    method Update(data: array<Byte>, start: nat, length: nat, ghost m: seq<Byte>)
      requires Holds(m) && start + length <= data.Length && data != buffer
      modifies this, buffer
      ensures Holds(m + data[start..start + length])
    {
      hide HashBlocks, Compress, Tail, Absorbed, Used, BitCount;
      if length == 0 {
        assert m + data[start..start + length] == m;
        return;
      }
      var from: nat, len: nat := start, length;
      UsedSpace(|m|);
      var usedspace := (bitcount / 8) % BLOCK;
      if usedspace > 0 {
        var freespace := BLOCK - usedspace;
        if len >= freespace {
          FillBuffer(usedspace, data, from, freespace, m);
          len, from := len - freespace, from + freespace;
        } else {
          KeepRest(usedspace, data, from, len, m);
          return;
        }
      }
      assert m + data[start..from] + data[from..from + len] == m + data[start..start + length];
      assert from == start ==> m + data[start..from] == m;
      AbsorbRest(data, from, len, m + data[start..from]);
    }

    /** The whole blocks of what is left, and then the rest of it. */
    method AbsorbRest(data: array<Byte>, start: nat, length: nat, ghost m: seq<Byte>)
      requires Holds(m) && Used(|m|) == 0 && start + length <= data.Length && data != buffer
      modifies this, buffer
      ensures Holds(m + data[start..start + length])
    {
      hide HashBlocks, Compress, Tail, Absorbed, Used, BitCount;
      var from: nat, len: nat := start, length;
      ghost var done := m;
      while len >= BLOCK
        invariant start <= from && from + len == start + length
        invariant done == m + data[start..from]
        invariant Used(|done|) == 0 && Holds(done)
      {
        WholeBlock(data, from, done);
        done := done + data[from..from + BLOCK];
        len, from := len - BLOCK, from + BLOCK;
        assert data[start..from] == data[start..from - BLOCK] + data[from - BLOCK..from];
      }
      assert m + data[start..start + length] == done + data[from..from + len];
      if len > 0 {
        KeepRest(0, data, from, len, done);
      } else {
        assert done + data[from..from + len] == done;
      }
    }

    /** The buffer is filled completely and compressed. */
    method FillBuffer(used: nat, data: array<Byte>, from: nat, n: nat, ghost m: seq<Byte>)
      requires Holds(m) && from + n <= data.Length && data != buffer && used == Used(|m|) == BLOCK - n
      modifies this, buffer
      ensures Holds(m + data[from..from + n]) && Used(|m + data[from..from + n]|) == 0
    {
      ghost var piece := data[from..from + n];
      CountBits(|m|, n);
      hide HashBlocks, Compress, Tail, Used, BitCount;
      CopyIn(used, data, from, n);
      assert buffer[..BLOCK] == buffer[..used] + buffer[used..used + n];
      bitcount := (bitcount + (8 * n) % UINT64) % UINT64;
      CompressBuffer(m, piece);
    }

    /** What does not fill the buffer is kept in it. */
    method KeepRest(used: nat, data: array<Byte>, from: nat, n: nat, ghost m: seq<Byte>)
      requires used == Used(|m|) && Holds(m) && from + n <= data.Length && data != buffer && used + n < BLOCK
      modifies this, buffer
      ensures Holds(m + data[from..from + n])
    {
      hide HashBlocks, Compress, Tail, Used, BitCount, INITIAL;
      NotFilled(INITIAL, m, data[from..from + n]);
      UsedAfter(|m|, n);
      CountBits(|m|, n);
      CopyIn(used, data, from, n);
      assert buffer[..used + n] == buffer[..used] + buffer[used..used + n];
      bitcount := (bitcount + (8 * n) % UINT64) % UINT64;
    }

    /** A whole block is compressed where it is. */
    method WholeBlock(data: array<Byte>, from: nat, ghost m: seq<Byte>)
      requires Holds(m) && Used(|m|) == 0 && from + BLOCK <= data.Length && data != buffer
      modifies this, buffer
      ensures Holds(m + data[from..from + BLOCK]) && Used(|m + data[from..from + BLOCK]|) == 0
    {
      hide HashBlocks, Compress, Tail, Used, BitCount, INITIAL;
      ghost var piece := data[from..from + BLOCK];
      BlockAfter(m, piece);
      CountBits(|m|, BLOCK);
      Transform(data, from);
      bitcount := (bitcount + (8 * BLOCK) % UINT64) % UINT64;
    }

    // ---- finishing ---------------------------------------------------------------------------------

    /** Padding up to the length, in the last block or over into one more. */
    method PadToLength(usedspace: nat, ghost m: seq<Byte>)
      requires Absorbed(m) && usedspace == Used(|m|)
      modifies this`st, buffer
      ensures Absorbed(Unfinished(m))
    {
      hide HashBlocks, Compress, Tail, Used, Unfinished;
      if usedspace > 0 {
        buffer[usedspace] := 0x80;
        var next := usedspace + 1;
        assert buffer[..next] == old(buffer[..usedspace]) + [0x80];
        if next <= SHORT_BLOCK {
          ClearBytes(next, SHORT_BLOCK - next);
          PaddedTail(m, SHORT_BLOCK - next);
          assert buffer[..SHORT_BLOCK] == buffer[..next] + buffer[next..next + (SHORT_BLOCK - next)];
        } else {
          PadOver(next, m);
        }
      } else {
        ClearBytes(0, SHORT_BLOCK);
        assert buffer[0..0 + SHORT_BLOCK] == Zeros(SHORT_BLOCK);
        buffer[0] := 0x80;
        PaddedTail(m, SHORT_BLOCK - 1);
        assert buffer[..SHORT_BLOCK] == [0x80] + Zeros(SHORT_BLOCK - 1);
        assert Tail(m) == [];
      }
    }

    /** The 0x80 byte leaves no room for the length: this block is finished and another one begun. */
    method PadOver(next: nat, ghost m: seq<Byte>)
      requires buffer.Length == BUFFER && st == HashBlocks(INITIAL, m)
      requires SHORT_BLOCK < next == Used(|m|) + 1 && buffer[..next] == Tail(m) + [0x80]
      modifies this`st, buffer
      ensures Absorbed(Unfinished(m))
    {
      hide HashBlocks, Compress, Tail, Used, Unfinished;
      if next < BLOCK {
        ClearBytes(next, BLOCK - next);
      }
      assert buffer[..BLOCK] == buffer[..next] + buffer[next..next + (BLOCK - next)];
      assert buffer[next..next + (BLOCK - next)] == Zeros(BLOCK - next);
      assert buffer[..BLOCK] == Tail(m) + ([0x80] + Zeros(BLOCK - next));
      CompressBuffer(m, [0x80] + Zeros(BLOCK - next));
      ClearBytes(0, SHORT_BLOCK);
      PaddedOver(m, BLOCK - next);
      assert buffer[..SHORT_BLOCK] == buffer[0..0 + SHORT_BLOCK];
    }

    /** SHA256Final: the digest of all the bytes, as if they had been padded whole. The context is wiped. */
    method Final(digest: array<Byte>, ghost m: seq<Byte>)
      requires Holds(m) && digest.Length == 32 && digest != buffer
      modifies this, buffer, digest
      ensures digest[..] == Digest(m)
      ensures st == Registers(0, 0, 0, 0, 0, 0, 0, 0) && bitcount == 0 && buffer[..] == Zeros(BUFFER)
    {
      hide HashBlocks, Compress, Tail, Absorbed, Used, BitCount, Unfinished, Padded, HostBytes, HostWord, Reverse64;
      UsedSpace(|m|);
      var usedspace := (bitcount / 8) % BLOCK;
      var reversed := Reverse64(HostWord(LittleEndian64(bitcount)));
      ReversedNumber(bitcount);
      PadToLength(usedspace, m);
      LastBlock(HostBytes(reversed), m);
      WriteDigest(digest);
      WipeContext();
    }

    /** The length behind the padding, and the last transform. */
    method LastBlock(bits: seq<Byte>, ghost m: seq<Byte>)
      requires Absorbed(Unfinished(m)) && bits == BigEndian64(BitCount(|m|))
      modifies this`st, buffer
      ensures st == HashBlocks(INITIAL, Padded(m)) && buffer.Length == BUFFER
    {
      UnfinishedLength(m);
      hide HashBlocks, Compress, Tail, Used, BitCount, Unfinished, Padded, BigEndian64;
      ghost var tail := buffer[..SHORT_BLOCK];
      for i := 0 to 8
        modifies buffer
        invariant buffer[..SHORT_BLOCK + i] == tail + bits[..i]
      {
        buffer[SHORT_BLOCK + i] := bits[i];
      }
      assert bits[..8] == bits;
      CompressBuffer(Unfinished(m), bits);
    }

    method WriteDigest(digest: array<Byte>)
      requires digest.Length == 32
      modifies digest
      ensures digest[..] == HashBytes(st, 8)
    {
      hide Reverse32, BigEndian32, Nth, LoadWord, LowByte, SecondByte, ThirdByte, HighByte;
      var j := 0;
      while j < 8
        invariant j <= 8
        invariant digest[..4 * j] == HashBytes(st, j)
      {
        ghost var before := digest[..4 * j];
        ReversedBytes(Nth(st, j));
        StoreWord(digest, j, Reverse32(Nth(st, j)));
        assert digest[..4 * j] == before;
        assert digest[..4 * (j + 1)] == digest[..4 * j] + digest[4 * j..4 * j + 4];
        j := j + 1;
      }
      assert digest[..32] == digest[..];
    }

    /** explicit_bzero */
    method WipeContext()
      requires buffer.Length == BUFFER
      modifies this, buffer
      ensures st == Registers(0, 0, 0, 0, 0, 0, 0, 0) && bitcount == 0 && buffer[..] == Zeros(BUFFER)
    {
      st, bitcount := Registers(0, 0, 0, 0, 0, 0, 0, 0), 0;
      for i := 0 to BUFFER
        modifies buffer
        invariant forall k :: 0 <= k < i ==> buffer[k] == 0
      {
        buffer[i] := 0;
      }
    }
  }

  ghost function Concatenated(chunks: seq<array<Byte>>): seq<Byte>
    reads chunks
  {
    if chunks == [] then [] else Concatenated(chunks[..|chunks| - 1]) + chunks[|chunks| - 1][..]
  }

  /** One update after another. */
  method UpdateAll(context: Context, chunks: seq<array<Byte>>)
    requires context.Holds([]) && context.buffer !in chunks
    modifies context, context.buffer
    ensures context.Holds(Concatenated(chunks))
  {
    hide HashBlocks, Compress, Tail, Used, BitCount;
    for i := 0 to |chunks|
      invariant context.Holds(Concatenated(chunks[..i]))
    {
      assert chunks[..i + 1][..i] == chunks[..i];
      assert chunks[i][0..0 + chunks[i].Length] == chunks[i][..];
      assert chunks[i] in chunks;
      context.Update(chunks[i], 0, chunks[i].Length, Concatenated(chunks[..i]));
    }
    assert chunks[..|chunks|] == chunks;
  }

  /**
   However a message is split into updates, empty ones included, the digest is that
   of the message given whole.
   */
  method DigestOfChunks(chunks: seq<array<Byte>>) returns (digest: array<Byte>)
    ensures fresh(digest) && digest[..] == Digest(Concatenated(chunks))
  {
    hide *;
    var context := new Context();
    context.Init();
    UpdateAll(context, chunks);
    digest := new Byte[32];
    context.Final(digest, Concatenated(chunks));
  }

  lemma PaddedTail(m: seq<Byte>, zeros: nat)
    requires Used(|m|) + 1 + zeros == SHORT_BLOCK
    ensures Unfinished(m) == m + ([0x80] + Zeros(zeros))
    ensures Tail(Unfinished(m)) == Tail(m) + ([0x80] + Zeros(zeros))
    ensures HashBlocks(INITIAL, Unfinished(m)) == HashBlocks(INITIAL, m)
    ensures Used(|Unfinished(m)|) == SHORT_BLOCK
  {
    ZeroBytesIs(|m|);
    UnfinishedLength(m);
    NotFilled(INITIAL, m, [0x80] + Zeros(zeros));
  }

  lemma PaddedOver(m: seq<Byte>, zeros: nat)
    requires Used(|m|) + 1 + zeros == BLOCK && SHORT_BLOCK < Used(|m|) + 1
    ensures
      var filled := m + ([0x80] + Zeros(zeros));
      && Unfinished(m) == filled + Zeros(SHORT_BLOCK)
      && Tail(Unfinished(m)) == Zeros(SHORT_BLOCK)
      && HashBlocks(INITIAL, Unfinished(m)) == HashBlocks(INITIAL, filled)
      && Used(|Unfinished(m)|) == SHORT_BLOCK
  {
    hide HashBlocks, Compress, INITIAL;
    var filled := m + ([0x80] + Zeros(zeros));
    ZeroBytesIs(|m|);
    UnfinishedLength(m);
    FilledBlock(INITIAL, m, [0x80] + Zeros(zeros));
    assert Zeros(zeros + SHORT_BLOCK) == Zeros(zeros) + Zeros(SHORT_BLOCK);
    assert Tail(filled) == [];
    NotFilled(INITIAL, filled, Zeros(SHORT_BLOCK));
  }

  /** What a whole block adds to bytes that fill whole blocks. */
  lemma BlockAfter(m: seq<Byte>, piece: seq<Byte>)
    requires Used(|m|) == 0 && |piece| == BLOCK
    ensures HashBlocks(INITIAL, m + piece) == Compress(HashBlocks(INITIAL, m), piece)
    ensures Used(|m + piece|) == 0 && Tail(m + piece) == []
  {
    hide HashBlocks, Compress, INITIAL;
    FilledBlock(INITIAL, m, piece);
    assert Tail(m) + piece == piece;
  }

  lemma NothingHashed()
    ensures HashBlocks(INITIAL, []) == INITIAL && Used(0) == 0 && BitCount(0) == 0 && Tail([]) == []
  {
    hide INITIAL;
    ShortHash(INITIAL, []);
  }

  lemma Circle(j: nat)
    requires 16 <= j
    ensures (j + 1) % 16 == (j - 15) % 16 && (j + 14) % 16 == (j - 2) % 16
    ensures (j + 9) % 16 == (j - 7) % 16 && j % 16 == (j - 16) % 16
  {}

  lemma Apart(i: nat, j: nat)
    requires i < j < i + 16
    ensures i % 16 != j % 16
  {}
}
