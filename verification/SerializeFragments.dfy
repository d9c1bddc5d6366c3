/**
 Decryption fragments on the wire (serialize/decryption.c): the message's shape
 depends on its own flags.
 */
module SerializeFragments {
  import opened Bignum
  import opened Wire
  import opened Serialize
  import opened SerializeMessages
  import opened SerializeOperations
  import opened DecryptionMessages

  method ReserveRow(st: State, f: Fragments, i: nat, selections: nat)
    requires Shaped(f, selections) && i < |f.requested|
    modifies st`len
    ensures st.len == if st.status == Reserving then old(st.len) + TotalSize(RowFields(f, i)) else old(st.len)
  {
    OneField(Flag(f.requested[i]));
    SizeConcat([Flag(f.requested[i])], if f.requested[i] then Bigs(f.partials[i], WORDS_4096) else []);
    hide TotalSize;
    st.ReserveBool();
    if f.requested[i] {
      ReserveBigs(st, selections, WORDS_4096, f.partials[i]);
    } else {
      assert RowFields(f, i) == [Flag(f.requested[i])];
    }
  }

  method ReserveFragments(st: State, f: Fragments, selections: nat)
    requires Shaped(f, selections) && st.status == Reserving
    modifies st`len
    ensures st.len == old(st.len) + TotalSize(FragmentsFields(f, selections))
  {
    FragmentsSize(f, selections);
    hide TotalSize, RowFields;
    st.ReserveUint32();
    st.ReserveUint32();
    st.ReserveUint32();
    ghost var start := st.len;
    for i := 0 to |f.requested|
      invariant st.status == Reserving
      invariant st.len + TotalSize(RowsFrom(f, i)) == start + TotalSize(RowsFrom(f, 0))
    {
      SizeConcat(RowFields(f, i), RowsFrom(f, i + 1));
      ReserveRow(st, f, i, selections);
    }
    NoRowsLeft(f);
    st.ReserveUint64s(WORDS_256);
  }

  lemma NoRowsLeft(f: Fragments)
    requires |f.requested| == |f.partials|
    ensures TotalSize(RowsFrom(f, |f.requested|)) == 0
  {}

  lemma FragmentsSize(f: Fragments, selections: nat)
    requires |f.requested| == |f.partials|
    ensures TotalSize(FragmentsFields(f, selections)) == 12 + TotalSize(RowsFrom(f, 0)) + 32
  {
    var a, b, c := U32(f.trusteeIndex), U32(|f.requested|), U32(selections);
    var last := BigPadded(f.lagrangeCoefficient, WORDS_256);
    OneField(a);
    OneField(b);
    OneField(c);
    OneField(last);
    SizeConcat([a], [b]);
    SizeConcat([a] + [b], [c]);
    assert [a] + [b] + [c] == [a, b, c];
    SizeConcat([a, b, c], RowsFrom(f, 0));
    SizeConcat([a, b, c] + RowsFrom(f, 0), [last]);
  }

  lemma Header(f: Fragments, selections: nat, tail: seq<Field>)
    requires |f.requested| == |f.partials|
    ensures FragmentsFields(f, selections) + tail
         == [U32(f.trusteeIndex)] + ([U32(|f.requested|)] + ([U32(selections)]
            + (RowsFrom(f, 0) + ([BigPadded(f.lagrangeCoefficient, WORDS_256)] + tail))))
  {}

  lemma NextRow(f: Fragments, i: nat, tail: seq<Field>)
    requires i < |f.requested| == |f.partials|
    ensures RowsFrom(f, i) + tail == [Flag(f.requested[i])]
      + ((if f.requested[i] then Bigs(f.partials[i], WORDS_4096) else []) + (RowsFrom(f, i + 1) + tail))
  {}

  lemma LastRow(f: Fragments, tail: seq<Field>)
    requires |f.requested| == |f.partials|
    ensures RowsFrom(f, |f.requested|) + tail == tail
  {}

  method WriteFragments(st: State, f: Fragments, selections: nat, ghost tail: seq<Field>)
    requires Shaped(f, selections) && st.Writes() && st.plan == FragmentsFields(f, selections) + tail
    requires f.trusteeIndex < UINT32_LIMIT && |f.requested| < UINT32_LIMIT && selections < UINT32_LIMIT
    modifies st`status, st`offset, st`written, st`plan, st.buf
    ensures st.Writes() && st.plan == tail
  {
    hide AllFit, TotalSize, AllBytes, Fits, Wire.Bytes, Bigs, FragmentsFields;
    ghost var last := [BigPadded(f.lagrangeCoefficient, WORDS_256)] + tail;
    Header(f, selections, tail);
    ghost var rows := RowsFrom(f, 0) + last;
    hide RowsFrom;
    st.WriteUint32(f.trusteeIndex, [U32(|f.requested|)] + ([U32(selections)] + rows));
    st.WriteUint32(|f.requested|, [U32(selections)] + rows);
    st.WriteUint32(selections, rows);
    for i := 0 to |f.requested|
      invariant st.Writes() && st.plan == RowsFrom(f, i) + last
    {
      NextRow(f, i, last);
      WriteRow(st, f, i, RowsFrom(f, i + 1) + last);
    }
    LastRow(f, last);
    st.WriteUint64sPadded(f.lagrangeCoefficient, WORDS_256, tail);
  }

  method WriteRow(st: State, f: Fragments, i: nat, ghost tail: seq<Field>)
    requires i < |f.requested| == |f.partials| && st.Writes()
    requires st.plan == [Flag(f.requested[i])]
      + ((if f.requested[i] then Bigs(f.partials[i], WORDS_4096) else []) + tail)
    modifies st`status, st`offset, st`written, st`plan, st.buf
    ensures st.Writes() && st.plan == tail
  {
    hide AllFit, TotalSize, AllBytes, Fits, Wire.Bytes, Bigs;
    st.WriteBool(f.requested[i], (if f.requested[i] then Bigs(f.partials[i], WORDS_4096) else []) + tail);
    if f.requested[i] {
      WriteBigs(st, f.partials[i], WORDS_4096, tail);
    } else {
      assert [] + tail == tail;
    }
  }

  method ReadFragments(st: State, ghost f: Fragments, ghost selections: nat, ghost tail: seq<Field>) returns (r: Fragments)
    requires Shaped(f, selections) && st.Reads() && st.plan == FragmentsFields(f, selections) + tail
    modifies st`offset, st`plan
    ensures st.Reads() && st.plan == tail && r == f
  {
    hide AllFit, TotalSize, AllBytes, Fits, Wire.Bytes, Bigs, FragmentsFields;
    ghost var last := [BigPadded(f.lagrangeCoefficient, WORDS_256)] + tail;
    Header(f, selections, tail);
    ghost var rows := RowsFrom(f, 0) + last;
    hide RowsFrom;
    var index := st.ReadUint32(f.trusteeIndex, [U32(|f.requested|)] + ([U32(selections)] + rows));
    var numTrustees := st.ReadUint32(|f.requested|, [U32(selections)] + rows);
    var numSelections := st.ReadUint32(selections, rows);
    var requested: seq<bool>, partials: seq<seq<int>> := [], [];
    for i := 0 to numTrustees
      invariant st.Reads() && st.plan == RowsFrom(f, i) + last
      invariant requested == f.requested[..i] && partials == f.partials[..i]
    {
      NextRow(f, i, last);
      var flag, row := ReadRow(st, numSelections, f, i, RowsFrom(f, i + 1) + last);
      requested, partials := requested + [flag], partials + [row];
      RowsRead(f, i);
    }
    LastRow(f, last);
    AllRowsRead(f);
    var lagrange := st.ReadUint64s(WORDS_256, BigPadded(f.lagrangeCoefficient, WORDS_256), tail);
    r := Fragments(index, requested, partials, lagrange);
  }

  lemma RowsRead(f: Fragments, i: nat)
    requires i < |f.requested| && i < |f.partials|
    ensures f.requested[..i + 1] == f.requested[..i] + [f.requested[i]]
    ensures f.partials[..i + 1] == f.partials[..i] + [f.partials[i]]
  {}

  lemma AllRowsRead(f: Fragments)
    requires |f.requested| == |f.partials|
    ensures f.requested[..|f.requested|] == f.requested && f.partials[..|f.requested|] == f.partials
  {}

  method ReadRow(st: State, selections: nat, ghost f: Fragments, ghost i: nat, ghost tail: seq<Field>)
    returns (flag: bool, row: seq<int>)
    requires Shaped(f, selections) && i < |f.requested| && st.Reads()
    requires st.plan == [Flag(f.requested[i])]
      + ((if f.requested[i] then Bigs(f.partials[i], WORDS_4096) else []) + tail)
    modifies st`offset, st`plan
    ensures st.Reads() && st.plan == tail && flag == f.requested[i] && row == f.partials[i]
  {
    hide AllFit, TotalSize, AllBytes, Fits, Wire.Bytes, Bigs;
    row := [];
    flag := st.ReadBool(f.requested[i], (if f.requested[i] then Bigs(f.partials[i], WORDS_4096) else []) + tail);
    if flag {
      row := ReadBigs(st, selections, WORDS_4096, f.partials[i], tail);
    } else {
      assert [] + tail == tail;
    }
  }

  /** Out through the wire and back. */
  lemma SameLengths(f: Fragments, selections: nat)
    requires Shaped(f, selections)
    ensures |f.requested| == |f.partials|
  {}

  /** The message's bytes, or none if a number does not fill its words. */
  method SerializeFragments(f: Fragments, selections: nat) returns (message: array?<Byte>)
    requires Shaped(f, selections)
    requires f.trusteeIndex < UINT32_LIMIT && |f.requested| < UINT32_LIMIT && selections < UINT32_LIMIT
    ensures message != null <==> FragmentsFit(f)
    ensures message != null ==>
      && fresh(message) && AllFit(FragmentsFields(f, selections))
      && message[..] == AllBytes(FragmentsFields(f, selections))
  {
    hide *;
    SameLengths(f, selections);
    ghost var fields := FragmentsFields(f, selections);
    FragmentsCanBeWritten(f, selections);
    FragmentsSize(f, selections);
    assert fields + [] == fields;
    var st := new State();
    ReserveFragments(st, f, selections);
    st.Allocate(fields);
    WriteFragments(st, f, selections, []);
    Finished(st, fields);
    message := if st.status == Writing then st.buf else null;
  }

  method TransmitFragments(f: Fragments, selections: nat) returns (ok: bool, message: array?<Byte>, r: Fragments)
    requires Shaped(f, selections)
    requires f.trusteeIndex < UINT32_LIMIT && |f.requested| < UINT32_LIMIT && selections < UINT32_LIMIT
    ensures ok <==> FragmentsFit(f)
    ensures ok ==> r == f
    ensures ok ==>
      && message != null && AllFit(FragmentsFields(f, selections))
      && message[..] == AllBytes(FragmentsFields(f, selections))
  {
    hide *;
    SameLengths(f, selections);
    message := SerializeFragments(f, selections);
    ok, r := message != null, f;
    if ok {
      ghost var fields := FragmentsFields(f, selections);
      assert fields + [] == fields;
      var reader := new State.FromBytes(message, fields);
      r := ReadFragments(reader, f, selections, []);
    }
  }
}
