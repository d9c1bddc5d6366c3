/**
 The text shown to a voter for a ballot tracker (voting/tracker.c): four bytes at a
 time become a noun and five digits. The buffer is measured in one pass and filled
 in another.
 */
module Tracker {

  type Byte = x: nat | x < 256

  const NOUN_COUNT := 4096
  const CHARS := "2346789BCDFGHJKM"

  /** The dictionary has a word for every 12-bit number. */
  predicate Dictionary(nouns: seq<string>) {
    |nouns| >= NOUN_COUNT
  }

  /** Words are told apart, and never contain the separator. */
  ghost predicate TellsApart(nouns: seq<string>) {
    && Dictionary(nouns)
    && (forall i, j :: 0 <= i < j < NOUN_COUNT ==> nouns[i] != nouns[j])
    && (forall i :: 0 <= i < NOUN_COUNT ==> ' ' !in nouns[i])
  }

  // ---- the text -------------------------------------------------------------------------------

  datatype Chunk = Chunk(a: Byte, b: Byte, c: Byte, d: Byte)

  function NounIndex(a: Byte, b: Byte): (r: nat)
    ensures r < NOUN_COUNT && r / 16 == a && r % 16 == b / 16
  {
    a * 16 + b / 16
  }

  /** display_noun and get_noun, whose mask keeps every index it is given here */
  function DisplayNoun(nouns: seq<string>, a: Byte, b: Byte): string
    requires Dictionary(nouns)
  {
    nouns[NounIndex(a, b) % NOUN_COUNT]
  }

  function Digits(b: Byte, c: Byte, d: Byte): string {
    [CHARS[b % 16], CHARS[c / 16], CHARS[c % 16], CHARS[d / 16], CHARS[d % 16]]
  }

  function ChunkText(nouns: seq<string>, x: Chunk): (r: string)
    requires Dictionary(nouns)
    ensures r != "" && r[|r| - 1] == ' '
  {
    DisplayNoun(nouns, x.a, x.b) + " " + Digits(x.b, x.c, x.d) + " "
  }

  function Text(nouns: seq<string>, chunks: seq<Chunk>): string
    requires Dictionary(nouns)
  {
    if chunks == [] then "" else ChunkText(nouns, chunks[0]) + Text(nouns, chunks[1..])
  }

  /** A tracker has no end of zeros after its bytes. */
  function ByteAt(bytes: seq<Byte>, i: nat): Byte {
    if i < |bytes| then bytes[i] else 0
  }

  /** Four bytes to a chunk; the last one is filled up with zeros. */
  function Chunks(bytes: seq<Byte>): (r: seq<Chunk>)
    ensures |r| == (|bytes| + 3) / 4
  {
    seq((|bytes| + 3) / 4, k requires 0 <= k =>
      Chunk(ByteAt(bytes, 4 * k), ByteAt(bytes, 4 * k + 1), ByteAt(bytes, 4 * k + 2), ByteAt(bytes, 4 * k + 3)))
  }

  /** What the voter sees: the last separator gives way to the terminator. */
  function Shown(nouns: seq<string>, bytes: seq<Byte>): string
    requires Dictionary(nouns) && bytes != []
  {
    var text := Text(nouns, Chunks(bytes));
    EndsInSpace(nouns, Chunks(bytes));
    text[..|text| - 1] + ['\0']
  }

  // ---- the two passes -----------------------------------------------------------------------------

  method ChunkLen(nouns: seq<string>, x: Chunk) returns (len: nat)
    requires Dictionary(nouns)
    ensures len == |ChunkText(nouns, x)|
  {
    len := |DisplayNoun(nouns, x.a, x.b)| + 5 + 2;
  }

  /** display_chunk at an offset of the buffer; it writes its own stretch and nothing else. */
  method DisplayChunk(nouns: seq<string>, out: array<char>, at: nat, outLen: nat, x: Chunk) returns (spaceUsed: nat)
    requires Dictionary(nouns) && at + outLen == out.Length && |ChunkText(nouns, x)| <= outLen
    modifies out
    ensures spaceUsed == |ChunkText(nouns, x)|
    ensures out[..at] == old(out[..at]) && out[at + spaceUsed..] == old(out[at + spaceUsed..])
    ensures out[at..at + spaceUsed] == ChunkText(nouns, x)
  {
    hide CHARS, DisplayNoun;
    var noun := DisplayNoun(nouns, x.a, x.b);
    var nounLen := |noun|;
    spaceUsed := nounLen + 5 + 2;
    assert spaceUsed <= outLen;
    CopyText(out, at, noun);
    WriteDigits(out, at + nounLen, Digits(x.b, x.c, x.d));
    assert out[at..at + nounLen] == noun;
    assert out[at..at + spaceUsed] == out[at..at + nounLen] + out[at + nounLen..at + spaceUsed];
  }

  method WriteDigits(out: array<char>, p: nat, digits: string)
    requires |digits| == 5 && p + 7 <= out.Length
    modifies out
    ensures out[p..p + 7] == " " + digits + " "
    ensures forall k :: 0 <= k < out.Length && !(p <= k < p + 7) ==> out[k] == old(out[k])
  {
    out[p + 0] := ' ';
    out[p + 1] := digits[0];
    out[p + 2] := digits[1];
    out[p + 3] := digits[2];
    out[p + 4] := digits[3];
    out[p + 5] := digits[4];
    out[p + 6] := ' ';
  }

  /** memcpy */
  method CopyText(out: array<char>, at: nat, text: string)
    requires at + |text| <= out.Length
    modifies out
    ensures out[at..at + |text|] == text
    ensures forall k :: 0 <= k < out.Length && !(at <= k < at + |text|) ==> out[k] == old(out[k])
  {
    for i := 0 to |text|
      invariant forall k :: 0 <= k < out.Length && !(at <= k < at + i) ==> out[k] == old(out[k])
      invariant forall k :: at <= k < at + i ==> out[k] == text[k - at]
    {
      out[at + i] := text[i];
    }
  }

  /** The sizing pass. */
  method Measure(nouns: seq<string>, bytes: seq<Byte>) returns (len: nat)
    requires Dictionary(nouns)
    ensures len == |Text(nouns, Chunks(bytes))|
  {
    hide ChunkText, Text;
    var i := 0;
    len := 0;
    ghost var chunks, c := Chunks(bytes), 0;
    TextOfNone(nouns, chunks);
    while i + 3 < |bytes|
      invariant i == 4 * c && i <= |bytes| && len == |Text(nouns, chunks[..c])|
    {
      TextGrows(nouns, chunks, c);
      var n := ChunkLen(nouns, Chunk(bytes[i], bytes[i + 1], bytes[i + 2], bytes[i + 3]));
      len := len + n;
      i, c := i + 4, c + 1;
    }
    if i < |bytes| {
      TextGrows(nouns, chunks, c);
      var remaining := |bytes| - i;
      var n := ChunkLen(nouns, Chunk(bytes[i], if remaining > 1 then bytes[i + 1] else 0,
                                     if remaining > 2 then bytes[i + 2] else 0, 0));
      len := len + n;
      c := c + 1;
    }
    assert chunks[..c] == chunks;
  }

  /** The filling pass ends exactly where the buffer does. */
  method Fill(nouns: seq<string>, bytes: seq<Byte>, result: array<char>) returns (curIdx: nat)
    requires Dictionary(nouns) && result.Length == |Text(nouns, Chunks(bytes))|
    modifies result
    ensures curIdx == result.Length && result[..] == Text(nouns, Chunks(bytes))
  {
    hide ChunkText, Text;
    var len, i := result.Length, 0;
    curIdx := 0;
    ghost var chunks, c := Chunks(bytes), 0;
    TextOfNone(nouns, chunks);
    while i + 3 < |bytes|
      invariant i == 4 * c && i <= |bytes| && curIdx <= len && result[..curIdx] == Text(nouns, chunks[..c])
    {
      TextGrows(nouns, chunks, c);
      var x := Chunk(bytes[i], bytes[i + 1], bytes[i + 2], bytes[i + 3]);
      var n := DisplayChunk(nouns, result, curIdx, len - curIdx, x);
      assert result[..curIdx + n] == result[..curIdx] + result[curIdx..curIdx + n];
      curIdx := curIdx + n;
      i, c := i + 4, c + 1;
    }
    if i < |bytes| {
      TextGrows(nouns, chunks, c);
      var remaining := |bytes| - i;
      var x := Chunk(bytes[i], if remaining > 1 then bytes[i + 1] else 0, if remaining > 2 then bytes[i + 2] else 0, 0);
      var n := DisplayChunk(nouns, result, curIdx, len - curIdx, x);
      assert result[..curIdx + n] == result[..curIdx] + result[curIdx..curIdx + n];
      curIdx := curIdx + n;
      c := c + 1;
    }
    assert chunks[..c] == chunks;
    assert result[..curIdx] == result[..];
  }

  /** display_ballot_tracker: its final assertion holds, so what was measured is exactly what is filled. */
  method DisplayBallotTracker(nouns: seq<string>, bytes: seq<Byte>) returns (result: array<char>)
    requires Dictionary(nouns) && bytes != []
    ensures fresh(result) && result[..] == Shown(nouns, bytes)
  {
    hide Text, Chunks;
    var len := Measure(nouns, bytes);
    result := new char[len];
    var curIdx := Fill(nouns, bytes, result);
    assert curIdx == len;
    EndsInSpace(nouns, Chunks(bytes));
    result[curIdx - 1] := '\0';
  }

  lemma TextOfNone(nouns: seq<string>, chunks: seq<Chunk>)
    requires Dictionary(nouns)
    ensures Text(nouns, chunks[..0]) == ""
  {}

  lemma {:induction false} TextGrows(nouns: seq<string>, chunks: seq<Chunk>, c: nat)
    requires Dictionary(nouns) && c < |chunks|
    ensures Text(nouns, chunks[..c + 1]) == Text(nouns, chunks[..c]) + ChunkText(nouns, chunks[c])
    ensures |Text(nouns, chunks[..c + 1])| <= |Text(nouns, chunks)|
  {
    hide ChunkText;
    if c == 0 {
      assert chunks[..1][1..] == [];
    } else {
      TextGrows(nouns, chunks[1..], c - 1);
      assert chunks[..c + 1][1..] == chunks[1..][..c] && chunks[..c][1..] == chunks[1..][..c - 1];
    }
  }

  lemma {:induction false} EndsInSpace(nouns: seq<string>, chunks: seq<Chunk>)
    requires Dictionary(nouns) && chunks != []
    ensures Text(nouns, chunks) != "" && Text(nouns, chunks)[|Text(nouns, chunks)| - 1] == ' '
  {
    hide ChunkText;
    if chunks[1..] != [] {
      EndsInSpace(nouns, chunks[1..]);
    }
  }

  // ---- what stands where ----------------------------------------------------------------------------

  /** Half-byte i of a tracker, the upper half of a byte before its lower half; zero after the end. */
  function HalfByte(bytes: seq<Byte>, i: nat): (h: nat)
    ensures h < 16
  {
    if i / 2 >= |bytes| then 0 else if i % 2 == 0 then bytes[i / 2] / 16 else bytes[i / 2] % 16
  }

  /** The word for three half-bytes, from the (8 * k)-th on. */
  function NounAt(nouns: seq<string>, bytes: seq<Byte>, k: nat): string
    requires Dictionary(nouns)
  {
    nouns[0x100 * HalfByte(bytes, 8 * k) + 0x10 * HalfByte(bytes, 8 * k + 1) + HalfByte(bytes, 8 * k + 2)]
  }

  /** Where chunk k starts. */
  function StartOf(nouns: seq<string>, bytes: seq<Byte>, k: nat): nat
    requires Dictionary(nouns)
  {
    if k == 0 then 0 else StartOf(nouns, bytes, k - 1) + |NounAt(nouns, bytes, k - 1)| + 7
  }

  lemma ByteHalves(bytes: seq<Byte>, i: nat)
    ensures HalfByte(bytes, 2 * i) == ByteAt(bytes, i) / 16 && HalfByte(bytes, 2 * i + 1) == ByteAt(bytes, i) % 16
  {}

  /** The character that is shown for half-byte i. */
  function Letter(bytes: seq<Byte>, i: nat): char {
    "2346789BCDFGHJKM"[HalfByte(bytes, i)]
  }

  function Letters(bytes: seq<Byte>, k: nat): (r: string)
    ensures |r| == 5
  {
    [Letter(bytes, 8 * k + 3), Letter(bytes, 8 * k + 4), Letter(bytes, 8 * k + 5),
     Letter(bytes, 8 * k + 6), Letter(bytes, 8 * k + 7)]
  }

  lemma LetterIs(bytes: seq<Byte>, i: nat)
    ensures CHARS[HalfByte(bytes, i)] == Letter(bytes, i)
  {
    hide HalfByte;
  }

  lemma ChunkHalves(nouns: seq<string>, bytes: seq<Byte>, k: nat)
    requires Dictionary(nouns) && k < |Chunks(bytes)|
    ensures
      var x := Chunks(bytes)[k];
      DisplayNoun(nouns, x.a, x.b) == NounAt(nouns, bytes, k) && Digits(x.b, x.c, x.d) == Letters(bytes, k)
  {
    hide HalfByte, Chunks, ByteAt, NounIndex, Letter, CHARS;
    var i := 4 * k;
    ChunkAt(bytes, k);
    ByteHalves(bytes, i);
    ByteHalves(bytes, i + 1);
    ByteHalves(bytes, i + 2);
    ByteHalves(bytes, i + 3);
    NounPlace(ByteAt(bytes, i), ByteAt(bytes, i + 1));
    FiveLetters(bytes, i);
  }

  lemma ChunkAt(bytes: seq<Byte>, k: nat)
    requires k < |Chunks(bytes)|
    ensures Chunks(bytes)[k] ==
      Chunk(ByteAt(bytes, 4 * k), ByteAt(bytes, 4 * k + 1), ByteAt(bytes, 4 * k + 2), ByteAt(bytes, 4 * k + 3))
  {}

  lemma NounPlace(a: Byte, b: Byte)
    ensures NounIndex(a, b) % NOUN_COUNT == 0x100 * (a / 16) + 0x10 * (a % 16) + b / 16
  {}

  lemma FiveLetters(bytes: seq<Byte>, i: nat)
    ensures
      var b, c, d := ByteAt(bytes, i + 1), ByteAt(bytes, i + 2), ByteAt(bytes, i + 3);
      && CHARS[b % 16] == Letter(bytes, 2 * i + 3)
      && CHARS[c / 16] == Letter(bytes, 2 * i + 4) && CHARS[c % 16] == Letter(bytes, 2 * i + 5)
      && CHARS[d / 16] == Letter(bytes, 2 * i + 6) && CHARS[d % 16] == Letter(bytes, 2 * i + 7)
  {
    hide HalfByte, ByteAt, Letter, CHARS;
    ByteHalves(bytes, i + 1);
    ByteHalves(bytes, i + 2);
    ByteHalves(bytes, i + 3);
    LetterIs(bytes, 2 * i + 3);
    LetterIs(bytes, 2 * i + 4);
    LetterIs(bytes, 2 * i + 5);
    LetterIs(bytes, 2 * i + 6);
    LetterIs(bytes, 2 * i + 7);
  }

  lemma ChunkTextIs(nouns: seq<string>, bytes: seq<Byte>, k: nat)
    requires Dictionary(nouns) && k < |Chunks(bytes)|
    ensures ChunkText(nouns, Chunks(bytes)[k]) == NounAt(nouns, bytes, k) + " " + Letters(bytes, k) + " "
  {
    hide Chunks, NounAt, DisplayNoun, Digits, Letters;
    ChunkHalves(nouns, bytes, k);
  }

  lemma {:induction false} TextTo(nouns: seq<string>, bytes: seq<Byte>, k: nat)
    requires Dictionary(nouns) && k <= |Chunks(bytes)|
    ensures |Text(nouns, Chunks(bytes)[..k])| == StartOf(nouns, bytes, k)
  {
    hide Chunks, NounAt, ChunkText, Letters;
    if k > 0 {
      TextTo(nouns, bytes, k - 1);
      TextGrows(nouns, Chunks(bytes), k - 1);
      ChunkTextIs(nouns, bytes, k - 1);
      hide Text;
    }
  }

  lemma {:induction false} TextSplit(nouns: seq<string>, chunks: seq<Chunk>, k: nat)
    requires Dictionary(nouns) && k <= |chunks|
    ensures Text(nouns, chunks) == Text(nouns, chunks[..k]) + Text(nouns, chunks[k..])
  {
    hide ChunkText;
    if k > 0 {
      TextSplit(nouns, chunks[1..], k - 1);
      assert chunks[..k][1..] == chunks[1..][..k - 1] && chunks[1..][k - 1..] == chunks[k..];
    }
  }

  /**
   What the voter sees of chunk k: the dictionary's word for its first three half-bytes, a
   space, and for each of its other five half-bytes that character of the alphabet. A
   space ends the chunk, and the terminator the last one.
   */
  lemma ChunkShown(nouns: seq<string>, bytes: seq<Byte>, k: nat)
    requires Dictionary(nouns) && bytes != [] && 4 * k < |bytes|
    ensures
      var shown, noun := Shown(nouns, bytes), NounAt(nouns, bytes, k);
      var from := StartOf(nouns, bytes, k);
      var digits := from + |noun| + 1;
      && digits + 6 == StartOf(nouns, bytes, k + 1) <= |shown|
      && shown[from..from + |noun|] == noun && shown[digits - 1] == ' '
      && shown[digits..digits + 5] == Letters(bytes, k)
      && (4 * k + 4 < |bytes| ==> shown[digits + 5] == ' ')
      && (4 * k + 4 >= |bytes| ==> shown[digits + 5] == '\0' && |shown| == digits + 6)
  {
    hide Text, Chunks, NounAt, ChunkText, Letters;
    var chunks := Chunks(bytes);
    TextTo(nouns, bytes, k);
    TextTo(nouns, bytes, k + 1);
    TextGrows(nouns, chunks, k);
    TextSplit(nouns, chunks, k + 1);
    ChunkTextIs(nouns, bytes, k);
    EndsInSpace(nouns, chunks);
    NothingLeft(nouns, chunks, k + 1);
    InTheMiddle(Text(nouns, chunks), Text(nouns, chunks[..k]), Text(nouns, chunks[k + 1..]),
                NounAt(nouns, bytes, k), Letters(bytes, k));
  }

  lemma NothingLeft(nouns: seq<string>, chunks: seq<Chunk>, k: nat)
    requires Dictionary(nouns) && k <= |chunks|
    ensures Text(nouns, chunks[k..]) == "" <==> k == |chunks|
  {
    hide ChunkText;
  }

  lemma InTheMiddle(text: string, before: string, rest: string, noun: string, digits: string)
    requires text == before + (noun + " " + digits + " ") + rest && |digits| == 5
    ensures
      var at := |before| + |noun|;
      && |text| == at + 7 + |rest| && text[|before|..at] == noun && text[at] == ' '
      && text[at + 1..at + 6] == digits && text[at + 6] == ' '
  {}

  // ---- when two trackers look the same ------------------------------------------------------------

  /** Two trackers look the same exactly when zeros at the end of the last chunk are all they differ in. */
  lemma ShownAlike(nouns: seq<string>, s: seq<Byte>, t: seq<Byte>)
    requires TellsApart(nouns) && s != [] && t != []
    ensures
      Shown(nouns, s) == Shown(nouns, t)
      <==> (|s| + 3) / 4 == (|t| + 3) / 4 && forall i: nat :: ByteAt(s, i) == ByteAt(t, i)
  {
    hide Text;
    var x, y := Text(nouns, Chunks(s)), Text(nouns, Chunks(t));
    EndsInSpace(nouns, Chunks(s));
    EndsInSpace(nouns, Chunks(t));
    SameChunks(s, t);
    if Shown(nouns, s) == Shown(nouns, t) {
      SameButLast(x, y, Shown(nouns, s));
      TextInjective(nouns, Chunks(s), Chunks(t));
    }
  }

  lemma SameButLast(x: string, y: string, shown: string)
    requires x != "" && y != "" && x[|x| - 1] == y[|y| - 1] == ' '
    requires x[..|x| - 1] + ['\0'] == shown == y[..|y| - 1] + ['\0']
    ensures x == y
  {
    assert x[..|x| - 1] == shown[..|shown| - 1] == y[..|y| - 1];
    assert x == x[..|x| - 1] + [' '] && y == y[..|y| - 1] + [' '];
  }

  lemma SameChunks(s: seq<Byte>, t: seq<Byte>)
    ensures Chunks(s) == Chunks(t) <==> (|s| + 3) / 4 == (|t| + 3) / 4 && forall i: nat :: ByteAt(s, i) == ByteAt(t, i)
  {
    if Chunks(s) == Chunks(t) {
      forall i: nat ensures ByteAt(s, i) == ByteAt(t, i) {
        var k := i / 4;
        if k < |Chunks(s)| {
          assert Chunks(s)[k] == Chunks(t)[k];
          assert i == 4 * k || i == 4 * k + 1 || i == 4 * k + 2 || i == 4 * k + 3;
        }
      }
    }
  }

  /** Different trackers of the same length never look the same. */
  lemma DifferentTrackersLookDifferent(nouns: seq<string>, s: seq<Byte>, t: seq<Byte>)
    requires TellsApart(nouns) && s != [] && |s| == |t| && s != t
    ensures Shown(nouns, s) != Shown(nouns, t)
  {
    hide Shown;
    ShownAlike(nouns, s, t);
    var i: nat :| i < |s| && s[i] != t[i];
    assert ByteAt(s, i) != ByteAt(t, i);
  }

  /** Trackers of different lengths can: one byte looks like the same byte followed by a zero. */
  lemma PaddingIsNotShown(nouns: seq<string>, b: Byte)
    requires Dictionary(nouns)
    ensures Shown(nouns, [b]) == Shown(nouns, [b, 0])
  {
    hide Text;
    SameChunks([b], [b, 0]);
  }

  lemma FirstWord(u: string, x: string, v: string, y: string)
    requires ' ' !in u && ' ' !in v && u + " " + x == v + " " + y
    ensures u == v && x == y
  {
    NotShorter(u, x, v, y);
    NotShorter(v, y, u, x);
    var w := u + " " + x;
    assert u == w[..|u|] && v == w[..|v|];
    assert x == w[|u| + 1..] && y == w[|v| + 1..];
  }

  lemma NotShorter(u: string, x: string, v: string, y: string)
    requires ' ' !in v && u + " " + x == v + " " + y
    ensures |u| >= |v|
  {
    var w := v + " " + y;
    assert w[|u|] == ' ';
  }

  lemma SameDigit(i: nat, j: nat)
    requires i < 16 && j < 16 && CHARS[i] == CHARS[j]
    ensures i == j
  {}

  lemma SameDigits(b: Byte, c: Byte, d: Byte, b': Byte, c': Byte, d': Byte)
    requires Digits(b, c, d) == Digits(b', c', d')
    ensures b % 16 == b' % 16 && c == c' && d == d'
  {
    hide CHARS;
    var s, t := Digits(b, c, d), Digits(b', c', d');
    assert s[0] == t[0] && s[1] == t[1] && s[2] == t[2] && s[3] == t[3] && s[4] == t[4];
    SameDigit(b % 16, b' % 16);
    SameDigit(c / 16, c' / 16);
    SameDigit(c % 16, c' % 16);
    SameDigit(d / 16, d' / 16);
    SameDigit(d % 16, d' % 16);
  }

  lemma NounOf(nouns: seq<string>, a: Byte, b: Byte)
    requires TellsApart(nouns)
    ensures ' ' !in DisplayNoun(nouns, a, b)
  {}

  lemma SameNoun(nouns: seq<string>, a: Byte, b: Byte, a': Byte, b': Byte)
    requires TellsApart(nouns) && DisplayNoun(nouns, a, b) == DisplayNoun(nouns, a', b')
    ensures a == a' && b / 16 == b' / 16
  {
    hide NounIndex;
    assert nouns[NounIndex(a, b)] == nouns[NounIndex(a', b')];
    assert NounIndex(a, b) == NounIndex(a', b');
  }

  lemma FirstFive(b: Byte, c: Byte, d: Byte, x: string, b': Byte, c': Byte, d': Byte, y: string)
    requires Digits(b, c, d) + (" " + x) == Digits(b', c', d') + (" " + y)
    ensures b % 16 == b' % 16 && c == c' && d == d' && x == y
  {
    var s := Digits(b, c, d) + (" " + x);
    assert Digits(b, c, d) == s[..5] == Digits(b', c', d');
    assert x == s[6..] == y;
    SameDigits(b, c, d, b', c', d');
  }

  /** The first chunk and what follows it can be read off a text. */
  lemma HeadChunk(nouns: seq<string>, x: Chunk, tx: string, y: Chunk, ty: string)
    requires TellsApart(nouns) && ChunkText(nouns, x) + tx == ChunkText(nouns, y) + ty
    ensures x == y && tx == ty
  {
    hide Digits, DisplayNoun, CHARS;
    var u, v := DisplayNoun(nouns, x.a, x.b), DisplayNoun(nouns, y.a, y.b);
    var dx, dy := Digits(x.b, x.c, x.d), Digits(y.b, y.c, y.d);
    assert ChunkText(nouns, x) + tx == u + " " + (dx + (" " + tx));
    assert ChunkText(nouns, y) + ty == v + " " + (dy + (" " + ty));
    NounOf(nouns, x.a, x.b);
    NounOf(nouns, y.a, y.b);
    FirstWord(u, dx + (" " + tx), v, dy + (" " + ty));
    FirstFive(x.b, x.c, x.d, tx, y.b, y.c, y.d, ty);
    SameNoun(nouns, x.a, x.b, y.a, y.b);
  }

  lemma {:induction false} TextInjective(nouns: seq<string>, p: seq<Chunk>, q: seq<Chunk>)
    requires TellsApart(nouns) && Text(nouns, p) == Text(nouns, q)
    ensures p == q
  {
    assert Dictionary(nouns);
    hide ChunkText, TellsApart;
    if p != [] && q != [] {
      HeadChunk(nouns, p[0], Text(nouns, p[1..]), q[0], Text(nouns, q[1..]));
      TextInjective(nouns, p[1..], q[1..]);
      assert p == [p[0]] + p[1..] && q == [q[0]] + q[1..];
    } else if p != [] {
      EndsInSpace(nouns, p);
    } else if q != [] {
      EndsInSpace(nouns, q);
    }
  }
}
