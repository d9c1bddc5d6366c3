/**
 The serialization state (serialize/state.c) and the functions that reserve, write
 and read the built-in fields (serialize/builtins.c) and the numbers
 (serialize/crypto.c).

 Ghost fields say what the state object stands for: all the fields of the message,
 those written so far, and those still to be written or read.
 */
module Serialize {
  import opened Arithmetic
  import opened Bignum
  import opened Wire

  datatype SerializeStatus = Reserving | Writing | Reading | InsufficientMemory | IoError

  class State {
    var status: SerializeStatus
    var len: nat
    var offset: nat
    var buf: array?<Byte>
    ghost var all: seq<Field>
    ghost var written: seq<Field>
    ghost var plan: seq<Field>

    constructor ()
      ensures status == Reserving && len == 0 && buf == null
    {
      status, len, offset, buf := Reserving, 0, 0, null;
      all, written, plan := [], [], [];
    }

    /** A state for reading what a finished writer has written. */
    constructor FromBytes(bytes: array<Byte>, ghost fields: seq<Field>)
      requires AllFit(fields) && bytes[..] == AllBytes(fields)
      ensures Reads() && plan == fields && buf == bytes
    {
      status, len, offset, buf := Reading, bytes.Length, 0, bytes;
      all, written, plan := fields, [], fields;
    }

    // ---- reserving ----------------------------------------------------------------------------

    method Reserve(size: nat)
      modifies this`len
      ensures len == if status == Reserving then old(len) + size else old(len)
    {
      if status == Reserving {
        len := len + size;
      }
    }

    method ReserveBool()
      modifies this`len
      ensures len == if status == Reserving then old(len) + 1 else old(len)
    {
      Reserve(1);
    }

    method ReserveUint32()
      modifies this`len
      ensures len == if status == Reserving then old(len) + 4 else old(len)
    {
      Reserve(4);
    }

    method ReserveUint64()
      modifies this`len
      ensures len == if status == Reserving then old(len) + 8 else old(len)
    {
      Reserve(8);
    }

    method ReserveUint64s(ct: nat)
      modifies this`len
      ensures len == if status == Reserving then old(len) + 8 * ct else old(len)
    {
      for i := 0 to ct
        invariant len == if status == Reserving then old(len) + 8 * i else old(len)
      {
        ReserveUint64();
      }
    }

    /** Serialize_allocate, when as much has been reserved as the fields to be written need. */
    method Allocate(ghost fields: seq<Field>)
      requires status == Reserving && len == TotalSize(fields)
      modifies this
      ensures len == old(len)
      ensures len > 0 ==> Writes() && fresh(buf) && offset == 0 && all == plan == fields
      ensures len == 0 ==> status == Reserving
    {
      if len > 0 {
        buf := new Byte[len];
        status := Writing;
        offset := 0;
        all, written, plan := fields, [], fields;
      }
    }

    // ---- writing --------------------------------------------------------------------------------

    /**
     Still writing exactly as long as every field so far could be written; the room
     left is what the fields to come need.
     */
    ghost predicate Writes()
      reads this, buf
    {
      && buf != null && buf.Length == len && all == written + plan
      && TotalSize(written) + TotalSize(plan) == len
      && status == (if AllFit(written) then Writing else IoError)
      && (AllFit(written) ==> offset == TotalSize(written) && buf[..offset] == AllBytes(written))
    }

    /** The next field goes from the plan to what has been written. */
    ghost method Advance(f: Field, tail: seq<Field>)
      requires plan == [f] + tail && all == written + plan
      modifies this`written, this`plan
      ensures written == old(written) + [f] && plan == tail && all == written + plan
      ensures TotalSize(written) + TotalSize(plan) == TotalSize(old(written)) + TotalSize(old(plan))
      ensures TotalSize(written) == TotalSize(old(written)) + Size(f)
      ensures AllFit(written) <==> AllFit(old(written)) && Fits(f)
      ensures AllFit(written) ==> AllBytes(written) == AllBytes(old(written)) + Bytes(f)
    {
      OneMore(written, f);
      OneField(f);
      SizeConcat([f], tail);
      written, plan := written + [f], tail;
    }

    /** The bytes of one more field, if all is well so far. */
    method PutBytes(bytes: seq<Byte>, ghost f: Field, ghost tail: seq<Field>)
      requires Writes() && plan == [f] + tail && Fits(f) && bytes == Bytes(f)
      modifies this`offset, this`written, this`plan, buf
      ensures Writes() && plan == tail
    {
      hide Wire.Bytes, Fits, Size, AllBytes, AllFit, TotalSize;
      Advance(f, tail);
      if status == Writing {
        Store(bytes);
        offset := offset + |bytes|;
      }
    }

    method Store(bytes: seq<Byte>)
      requires buf != null && offset + |bytes| <= buf.Length
      modifies buf
      ensures buf[..offset + |bytes|] == old(buf[..offset]) + bytes
    {
      for i := 0 to |bytes|
        invariant buf[..offset] == old(buf[..offset])
        invariant buf[offset..offset + i] == bytes[..i]
      {
        buf[offset + i] := bytes[i];
      }
    }

    /** A number that cannot be exported: the message has failed. */
    method Fail(ghost f: Field, ghost tail: seq<Field>)
      requires Writes() && plan == [f] + tail && !Fits(f)
      modifies this`status, this`written, this`plan
      ensures Writes() && plan == tail
    {
      Advance(f, tail);
      status := IoError;
    }

    method WriteBool(b: bool, ghost tail: seq<Field>)
      requires Writes() && plan == [Flag(b)] + tail
      modifies this`offset, this`written, this`plan, buf
      ensures Writes() && plan == tail
    {
      PutBytes([if b then 1 else 0], Flag(b), tail);
    }

    method WriteUint32(n: nat, ghost tail: seq<Field>)
      requires Writes() && plan == [U32(n)] + tail && n < UINT32_LIMIT
      modifies this`offset, this`written, this`plan, buf
      ensures Writes() && plan == tail
    {
      var bytes := BytesOfNumber(n, 4);
      PutBytes(bytes, U32(n), tail);
    }

    method WriteUint64(n: nat, ghost tail: seq<Field>)
      requires Writes() && plan == [U64(n)] + tail && n < WORD
      modifies this`offset, this`written, this`plan, buf
      ensures Writes() && plan == tail
    {
      var bytes := BytesOfNumber(n, 8);
      PutBytes(bytes, U64(n), tail);
    }

    /** Serialize_write_uint64_ts: a number that does not fill its words fails the whole message. */
    method WriteUint64s(v: int, ct: nat, ghost tail: seq<Field>)
      requires Writes() && plan == [Big(v, ct)] + tail
      modifies this`status, this`offset, this`written, this`plan, buf
      ensures Writes() && plan == tail
    {
      if Fills(v, ct) {
        PowPositive(WORD, ct - 1);
        var bytes := BytesOfNumbers(WordsOf(v, ct));
        PutBytes(bytes, Big(v, ct), tail);
      } else {
        Fail(Big(v, ct), tail);
      }
    }

    /** Serialize_write_uint64_ts_pad */
    method WriteUint64sPadded(v: int, ct: nat, ghost tail: seq<Field>)
      requires Writes() && plan == [BigPadded(v, ct)] + tail
      modifies this`status, this`offset, this`written, this`plan, buf
      ensures Writes() && plan == tail
    {
      if FillsPadded(v, ct) {
        var bytes := BytesOfNumbers(WordsOf(v, ct));
        PutBytes(bytes, BigPadded(v, ct), tail);
      } else {
        Fail(BigPadded(v, ct), tail);
      }
    }

    // ---- reading --------------------------------------------------------------------------------

    /** The bytes from here on are those of the fields to come. */
    ghost predicate Reads()
      reads this, buf
    {
      && ReadsFields() && buf[offset..offset + TotalSize(plan)] == AllBytes(plan)
    }

    ghost predicate ReadsFields()
      reads this
    {
      && status == Reading && buf != null && buf.Length == len && AllFit(plan)
      && offset + TotalSize(plan) <= len
    }

    /** The bytes of the next field. */
    method TakeBytes(n: nat, ghost f: Field, ghost tail: seq<Field>) returns (bytes: seq<Byte>)
      requires Reads() && plan == [f] + tail && n == Size(f)
      modifies this`offset, this`plan
      ensures Reads() && plan == tail && Fits(f) && bytes == Bytes(f)
    {
      hide Wire.Bytes, Fits, Size, AllBytes, AllFit, TotalSize;
      NextField(f, tail);
      bytes := Take(n);
      plan := tail;
    }

    lemma NextField(f: Field, tail: seq<Field>)
      requires Reads() && plan == [f] + tail
      ensures Fits(f) && AllFit(tail) && offset + Size(f) + TotalSize(tail) <= len
      ensures buf[offset..offset + Size(f)] == Bytes(f)
      ensures buf[offset + Size(f)..offset + Size(f) + TotalSize(tail)] == AllBytes(tail)
    {
      hide Wire.Bytes, Fits, Size, AllBytes, AllFit, TotalSize;
      FirstField(f, tail);
      ghost var n, m := Size(f), TotalSize(tail);
      ghost var coming := buf[offset..offset + (n + m)];
      assert coming == Wire.Bytes(f) + AllBytes(tail);
      assert buf[offset..offset + n] == coming[..n];
      assert buf[offset + n..offset + n + m] == coming[n..];
    }

    method Take(n: nat) returns (bytes: seq<Byte>)
      requires buf != null && offset + n <= buf.Length
      modifies this`offset
      ensures offset == old(offset) + n && bytes == buf[old(offset)..old(offset) + n]
    {
      bytes := buf[offset..offset + n];
      offset := offset + n;
    }

    method ReadBool(ghost b: bool, ghost tail: seq<Field>) returns (r: bool)
      requires Reads() && plan == [Flag(b)] + tail
      modifies this`offset, this`plan
      ensures Reads() && plan == tail && r == b
    {
      var bytes := TakeBytes(1, Flag(b), tail);
      r := bytes[0] != 0;
    }

    method ReadUint32(ghost n: nat, ghost tail: seq<Field>) returns (r: nat)
      requires Reads() && plan == [U32(n)] + tail
      modifies this`offset, this`plan
      ensures Reads() && plan == tail && r == n
    {
      var bytes := TakeBytes(4, U32(n), tail);
      r := NumberOfBytes(bytes);
      BytesRoundTrip(n, 4);
      SmallPowers();
      SmallMod(n, Power256(4));
    }

    method ReadUint64(ghost n: nat, ghost tail: seq<Field>) returns (r: nat)
      requires Reads() && plan == [U64(n)] + tail
      modifies this`offset, this`plan
      ensures Reads() && plan == tail && r == n
    {
      var bytes := TakeBytes(8, U64(n), tail);
      r := NumberOfBytes(bytes);
      BytesRoundTrip(n, 8);
      SmallPowers();
      SmallMod(n, Power256(8));
    }

    /** Serialize_read_uint64_ts: it reads either kind of number field. */
    method ReadUint64s(ct: nat, ghost f: Field, ghost tail: seq<Field>) returns (v: nat)
      requires Reads() && plan == [f] + tail && (f.Big? || f.BigPadded?) && f.words == ct
      modifies this`offset, this`plan
      ensures Reads() && plan == tail && v == f.v
    {
      var bytes := TakeBytes(8 * ct, f, tail);
      BigRange(f);
      v := NumberOfWords(bytes, ct, f.v);
    }
  }

  // ---- bytes of numbers, in loops ---------------------------------------------------------------

  method BytesOfNumber(n: nat, ct: nat) returns (bytes: seq<Byte>)
    ensures bytes == LittleEndian(n, ct)
  {
    bytes := [];
    for i := 0 to ct
      invariant bytes == LittleEndian(n, i)
    {
      bytes := bytes + [ReadNthByte(n, i)];
    }
  }

  method BytesOfNumbers(ws: seq<nat>) returns (bytes: seq<Byte>)
    ensures bytes == BytesOfWords(ws)
  {
    bytes := [];
    for i := 0 to |ws|
      invariant bytes == BytesOfWords(ws[..i])
    {
      assert ws[..i + 1][..i] == ws[..i];
      var word := BytesOfNumber(ws[i], 8);
      bytes := bytes + word;
    }
    assert ws[..|ws|] == ws;
  }

  method NumberOfBytes(bytes: seq<Byte>) returns (n: nat)
    ensures n == FromLittleEndian(bytes)
  {
    n := 0;
    for i := 0 to |bytes|
      invariant n == FromLittleEndian(bytes[..i])
    {
      assert bytes[..i + 1][..i] == bytes[..i];
      n := WriteNthByte(n, i, bytes[i]);
    }
    assert bytes[..|bytes|] == bytes;
  }

  /** Reading the words of a number and importing them. */
  method NumberOfWords(bytes: seq<Byte>, ct: nat, ghost v: nat) returns (n: nat)
    requires v < WordPower(ct) && bytes == BytesOfWords(WordsOf(v, ct))
    ensures n == v
  {
    ghost var ws := WordsOf(v, ct);
    var words: seq<nat> := [];
    for i := 0 to ct
      invariant words == ws[..i]
    {
      var word := NumberOfBytes(bytes[8 * i..8 * i + 8]);
      WordBytes(ws, i);
      BytesRoundTrip(ws[i], 8);
      SmallPowers();
      SmallMod(ws[i], Power256(8));
      words := words + [word];
    }
    ExportImport(v, ct);
    assert ws[..ct] == ws;
    n := ImportWords(words);
  }

  lemma {:induction false} WordBytes(ws: seq<nat>, i: nat)
    requires i < |ws|
    ensures BytesOfWords(ws)[8 * i..8 * i + 8] == LittleEndian(ws[i], 8)
  {
    var n := |ws| - 1;
    if i < n {
      WordBytes(ws[..n], i);
      assert BytesOfWords(ws)[8 * i..8 * i + 8] == BytesOfWords(ws[..n])[8 * i..8 * i + 8];
    }
  }

  lemma SmallPowers()
    ensures Power256(4) == UINT32_LIMIT && Power256(8) == WORD
  {
    assert Pow(256, 1) == 256 && Pow(256, 2) == 0x1_0000;
    PowAdd(256, 2, 2);
    PowAdd(256, 4, 4);
  }

  lemma BigRange(f: Field)
    requires (f.Big? || f.BigPadded?) && Fits(f)
    ensures 0 <= f.v < WordPower(f.words)
  {
    if f.Big? { PowPositive(WORD, f.words - 1); }
  }

  lemma OneField(f: Field)
    ensures TotalSize([f]) == Size(f) && (Fits(f) ==> AllFit([f]) && AllBytes([f]) == Bytes(f))
  {
    assert [f][..0] == [];
    hide Wire.Bytes, Fits, Size;
    if Fits(f) {
      assert AllBytes([f]) == AllBytes([]) + Bytes(f);
    }
  }

  lemma FirstField(f: Field, tail: seq<Field>)
    requires AllFit([f] + tail)
    ensures Fits(f) && AllFit(tail)
    ensures TotalSize([f] + tail) == Size(f) + TotalSize(tail)
    ensures AllBytes([f] + tail) == Bytes(f) + AllBytes(tail)
  {
    FitConcat([f], tail);
    assert Fits([f][0]);
    BytesConcat([f], tail);
    SizeConcat([f], tail);
    OneField(f);
  }

  lemma OneMore(fs: seq<Field>, f: Field)
    ensures TotalSize(fs + [f]) == TotalSize(fs) + Size(f)
    ensures AllFit(fs + [f]) <==> AllFit(fs) && Fits(f)
    ensures AllFit(fs + [f]) ==> AllBytes(fs + [f]) == AllBytes(fs) + Bytes(f)
  {
    OneField(f);
    SizeConcat(fs, [f]);
    FitConcat(fs, [f]);
    hide Wire.Bytes, Fits, Size;
    assert AllFit([f]) <==> Fits(f) by { assert [f][0] == f; }
    if AllFit(fs) && Fits(f) {
      BytesConcat(fs, [f]);
    }
  }
}
