/**
 The wire format: a message is a run of fields, every field a fixed number of
 bytes. What the bytes of each field are, when a number can be written at all, and
 that nothing written is read back differently.
 */
module Wire {
  import opened Arithmetic
  import opened Bignum

  type Byte = x: nat | x < 256

  /** A number field has a fixed number of 64-bit words; only the padded kind may need fewer. */
  datatype Field =
    | Flag(b: bool)
    | U32(n: nat)
    | U64(n: nat)
    | Big(v: int, words: nat)
    | BigPadded(v: int, words: nat)

  const UINT32_LIMIT: nat := 0x1_0000_0000

  // ---- bytes of small numbers ---------------------------------------------------------------

  function Power256(n: nat): (r: nat)
    ensures 1 <= r
  {
    PowPositive(256, n);
    Pow(256, n)
  }

  /** read_nth_byte */
  function ReadNthByte(data: nat, n: nat): Byte {
    QuotientNat(data, Power256(n));
    (data / Power256(n)) % 256
  }

  lemma QuotientNat(x: nat, y: nat)
    requires 0 < y
    ensures 0 <= x / y && x / y * y <= x < x / y * y + y
  {
    assert x == x / y * y + x % y;
    if x / y < 0 { MulMono(x / y, -1, y); }
  }

  /** write_nth_byte: the or-ing in of a byte above those already there is an addition. */
  function WriteNthByte(data: nat, n: nat, byte: Byte): (r: nat)
    requires data < Power256(n)
    ensures r < Power256(n + 1)
  {
    assert Power256(n + 1) == 256 * Power256(n);
    MulMono(byte, 255, Power256(n));
    MulNonNeg(byte, Power256(n));
    data + byte * Power256(n)
  }

  /** A number as n bytes, least significant first. */
  function LittleEndian(data: nat, n: nat): (r: seq<Byte>)
    ensures |r| == n && forall i :: 0 <= i < n ==> r[i] == ReadNthByte(data, i)
  {
    seq(n, i requires 0 <= i < n => ReadNthByte(data, i))
  }

  /** The number whose bytes these are. */
  function FromLittleEndian(s: seq<Byte>): (r: nat)
    ensures r < Power256(|s|)
  {
    if s == [] then 0
    else WriteNthByte(FromLittleEndian(s[..|s| - 1]), |s| - 1, s[|s| - 1])
  }

  /** Writing a number's bytes and putting them together again gives the number, as far as they reach. */
  lemma {:induction false} BytesRoundTrip(data: nat, n: nat)
    ensures FromLittleEndian(LittleEndian(data, n)) == data % Power256(n)
  {
    if n == 0 {
      assert Power256(0) == 1;
    } else {
      BytesRoundTrip(data, n - 1);
      assert LittleEndian(data, n)[..n - 1] == LittleEndian(data, n - 1);
      assert Power256(n) == 256 * Power256(n - 1);
      NextDigit(data, Power256(n - 1), 256);
    }
  }

  /** data % (base * weight), digit by digit. */
  lemma NextDigit(data: nat, weight: nat, base: nat)
    requires 0 < weight && 0 < base
    ensures 0 < base * weight && data % (base * weight) == data % weight + (data / weight % base) * weight
  {
    MulMono(1, base, weight);
    var q, r := data / weight, data % weight;
    QuotientNat(data, weight);
    var q1, d := q / base, q % base;
    assert data == q * weight + r && q == q1 * base + d;
    MulDistrib(weight, q1 * base, d);
    MulAssoc(q1, base, weight);
    MulMono(d, base - 1, weight);
    MulMono(0, d, weight);
    assert (base - 1) * weight == base * weight - weight;
    DivModUnique(data, base * weight, q1, d * weight + r);
  }

  // ---- the bytes as digits ------------------------------------------------------------------

  /** The number with these digits to the base 256, the least significant one first. */
  function DigitSum(s: seq<Byte>): nat {
    if s == [] then 0 else s[0] + 256 * DigitSum(s[1..])
  }

  lemma {:induction false} DigitSumAppend(s: seq<Byte>, b: Byte)
    ensures DigitSum(s + [b]) == DigitSum(s) + b * Power256(|s|)
  {
    if s == [] {
      assert [] + [b] == [b] && [b][1..] == [] && Power256(0) == 1;
    } else {
      DigitSumAppend(s[1..], b);
      assert (s + [b])[1..] == s[1..] + [b];
      assert Power256(|s|) == 256 * Power256(|s| - 1);
      MulExchange(b, 256, Power256(|s| - 1));
    }
  }

  /** The bytes of a number are its digits to the base 256, least significant first. */
  lemma {:induction false} BytesAreDigits(data: nat, n: nat)
    ensures DigitSum(LittleEndian(data, n)) == data % Power256(n)
  {
    var s := LittleEndian(data, n);
    if n == 0 {
      assert s == [] && Power256(0) == 1;
    } else {
      BytesAreDigits(data, n - 1);
      assert s[..n - 1] == LittleEndian(data, n - 1) && s == s[..n - 1] + [s[n - 1]];
      DigitSumAppend(s[..n - 1], s[n - 1]);
      assert Power256(n) == 256 * Power256(n - 1);
      NextDigit(data, Power256(n - 1), 256);
    }
  }

  lemma SmallMod(data: nat, m: nat)
    requires data < m
    ensures data % m == data
  {}

  // ---- words of big numbers -----------------------------------------------------------------

  function WordPower(n: nat): (r: nat)
    ensures 1 <= r
  {
    PowPositive(WORD, n);
    Pow(WORD, n)
  }

  /** mpz_export with the given number of words, most significant first. */
  function WordsOf(v: nat, ct: nat): (r: seq<nat>)
    ensures |r| == ct && forall i :: 0 <= i < ct ==> r[i] < WORD
    decreases ct
  {
    if ct == 0 then []
    else
      QuotientNat(v, WORD);
      WordsOf(v / WORD, ct - 1) + [v % WORD]
  }

  /** mpz_import of words, most significant first. */
  function ImportWords(ws: seq<nat>): nat {
    if ws == [] then 0 else ImportWords(ws[..|ws| - 1]) * WORD + ws[|ws| - 1]
  }

  /** A number exported in enough words is imported again as itself. */
  lemma {:induction false} ExportImport(v: nat, ct: nat)
    requires v < WordPower(ct)
    ensures ImportWords(WordsOf(v, ct)) == v
    decreases ct
  {
    if ct == 0 {
      assert WordPower(0) == 1;
    } else {
      QuotientNat(v, WORD);
      assert WordPower(ct) == WORD * WordPower(ct - 1);
      MulComm(WORD, WordPower(ct - 1));
      MulCancelLess(v / WORD, WordPower(ct - 1), WORD);
      ExportImport(v / WORD, ct - 1);
      assert WordsOf(v, ct)[..ct - 1] == WordsOf(v / WORD, ct - 1);
    }
  }

  function BytesOfWords(ws: seq<nat>): (r: seq<Byte>)
    ensures |r| == 8 * |ws|
  {
    if ws == [] then [] else BytesOfWords(ws[..|ws| - 1]) + LittleEndian(ws[|ws| - 1], 8)
  }

  lemma {:induction false} WordAt(v: nat, ct: nat, k: nat)
    requires v < WordPower(ct) && k < ct
    ensures WordsOf(v, ct)[k] == v / WordPower(ct - 1 - k) % WORD
    decreases ct
  {
    QuotientNat(v, WORD);
    assert WordPower(ct) == WORD * WordPower(ct - 1);
    MulComm(WORD, WordPower(ct - 1));
    MulCancelLess(v / WORD, WordPower(ct - 1), WORD);
    if k == ct - 1 {
      assert WordPower(0) == 1;
    } else {
      WordAt(v / WORD, ct - 1, k);
      assert WordPower(ct - 1 - k) == WORD * WordPower(ct - 2 - k);
      DivideByProduct(v, WORD, WordPower(ct - 2 - k));
    }
  }

  lemma DivideByProduct(v: nat, a: nat, b: nat)
    requires 1 <= a && 1 <= b
    ensures 1 <= a * b && v / a / b == v / (a * b)
  {
    var q, r := v / a, v % a;
    var q1, r1 := q / b, q % b;
    assert v == q * a + r && q == q1 * b + r1;
    QuotientNat(v, a);
    QuotientNat(q, b);
    QuotientParts(v, a, b, q, r, q1, r1);
  }

  lemma QuotientParts(v: nat, a: nat, b: nat, q: nat, r: nat, q1: nat, r1: nat)
    requires v == q * a + r && r < a && q == q1 * b + r1 && r1 < b
    ensures 1 <= a * b && v / (a * b) == q1
  {
    hide *;
    MulMono(1, a, b);
    MulDistrib(a, q1 * b, r1);
    MulAssoc(q1, b, a);
    MulComm(a, b);
    MulMono(r1, b - 1, a);
    MulMono(0, r1, a);
    assert (b - 1) * a == b * a - a;
    DivModUnique(v, a * b, q1, r1 * a + r);
  }

  lemma {:induction false} BytesOfWordAt(ws: seq<nat>, k: nat)
    requires k < |ws|
    ensures BytesOfWords(ws)[8 * k..8 * k + 8] == LittleEndian(ws[k], 8)
  {
    var n := |ws| - 1;
    var before := BytesOfWords(ws[..n]);
    if k < n {
      BytesOfWordAt(ws[..n], k);
      assert BytesOfWords(ws)[8 * k..8 * k + 8] == before[8 * k..8 * k + 8];
    }
  }

  /**
   The bytes of a number field: the k-th eight of them are the k-th word from the top, each
   word least significant byte first, as the export to 64-bit words leaves them in memory.
   */
  lemma NumberBytes(v: nat, words: nat, k: nat)
    requires v < WordPower(words) && k < words
    ensures DigitSum(BytesOfWords(WordsOf(v, words))[8 * k..8 * k + 8]) == v / WordPower(words - 1 - k) % WORD
  {
    WordAt(v, words, k);
    BytesOfWordAt(WordsOf(v, words), k);
    var w := WordsOf(v, words)[k];
    BytesAreDigits(w, 8);
    assert Power256(8) == WORD;
    SmallMod(w, WORD);
  }

  /** The number whose words these bytes are, most significant word first. */
  function ValueOfBytes(s: seq<Byte>): nat {
    if |s| < 8 then 0 else ValueOfBytes(s[..|s| - 8]) * WORD + DigitSum(s[|s| - 8..])
  }

  lemma {:induction false} ValueOfNumber(v: nat, words: nat)
    requires v < WordPower(words)
    ensures ValueOfBytes(BytesOfWords(WordsOf(v, words))) == v
    decreases words
  {
    if words == 0 {
      assert WordPower(0) == 1;
    } else {
      QuotientNat(v, WORD);
      assert WordPower(words) == WORD * WordPower(words - 1);
      MulComm(WORD, WordPower(words - 1));
      MulCancelLess(v / WORD, WordPower(words - 1), WORD);
      ValueOfNumber(v / WORD, words - 1);
      assert WordsOf(v, words)[..words - 1] == WordsOf(v / WORD, words - 1);
      BytesAreDigits(v % WORD, 8);
      assert Power256(8) == WORD;
      SmallMod(v % WORD, WORD);
      var s := BytesOfWords(WordsOf(v, words));
      assert s[..|s| - 8] == BytesOfWords(WordsOf(v / WORD, words - 1)) && s[|s| - 8..] == LittleEndian(v % WORD, 8);
    }
  }

  // ---- fields ---------------------------------------------------------------------------------

  function Size(f: Field): nat {
    match f
    case Flag(_) => 1
    case U32(_) => 4
    case U64(_) => 8
    case Big(_, words) => 8 * words
    case BigPadded(_, words) => 8 * words
  }

  /** The number can be exported, or the value is one of the field's C type. */
  predicate Fits(f: Field) {
    match f
    case Flag(_) => true
    case U32(n) => n < UINT32_LIMIT
    case U64(n) => n < WORD
    case Big(v, words) => Fills(v, words)
    case BigPadded(v, words) => FillsPadded(v, words)
  }

  function Bytes(f: Field): (r: seq<Byte>)
    requires Fits(f)
    ensures |r| == Size(f)
  {
    match f
    case Flag(b) => [if b then 1 else 0]
    case U32(n) => LittleEndian(n, 4)
    case U64(n) => LittleEndian(n, 8)
    case Big(v, words) => PowPositive(WORD, words - 1); BytesOfWords(WordsOf(v, words))
    case BigPadded(v, words) => BytesOfWords(WordsOf(v, words))
  }

  function TotalSize(fs: seq<Field>): nat {
    if fs == [] then 0 else TotalSize(fs[..|fs| - 1]) + Size(fs[|fs| - 1])
  }

  predicate AllFit(fs: seq<Field>) {
    forall i :: 0 <= i < |fs| ==> Fits(fs[i])
  }

  function AllBytes(fs: seq<Field>): (r: seq<Byte>)
    requires AllFit(fs)
    ensures |r| == TotalSize(fs)
  {
    if fs == [] then [] else AllBytes(fs[..|fs| - 1]) + Bytes(fs[|fs| - 1])
  }

  lemma {:induction false} SizeConcat(xs: seq<Field>, ys: seq<Field>)
    ensures TotalSize(xs + ys) == TotalSize(xs) + TotalSize(ys)
  {
    if ys == [] {
      assert xs + ys == xs;
    } else {
      var n := |ys| - 1;
      SizeConcat(xs, ys[..n]);
      assert (xs + ys)[..|xs + ys| - 1] == xs + ys[..n];
    }
  }

  lemma FitConcat(xs: seq<Field>, ys: seq<Field>)
    ensures AllFit(xs + ys) <==> AllFit(xs) && AllFit(ys)
  {
    hide Fits;
    if AllFit(xs + ys) {
      forall i | 0 <= i < |xs| ensures Fits(xs[i]) { assert Fits((xs + ys)[i]); }
      forall i | 0 <= i < |ys| ensures Fits(ys[i]) { assert Fits((xs + ys)[|xs| + i]); }
    }
  }

  lemma {:induction false} BytesConcat(xs: seq<Field>, ys: seq<Field>)
    requires AllFit(xs) && AllFit(ys)
    ensures AllFit(xs + ys) && AllBytes(xs + ys) == AllBytes(xs) + AllBytes(ys)
  {
    FitConcat(xs, ys);
    hide Bytes, Fits;
    if ys == [] {
      assert xs + ys == xs;
    } else {
      var n := |ys| - 1;
      BytesConcat(xs, ys[..n]);
      ghost var x, y, last := AllBytes(xs), AllBytes(ys[..n]), Bytes(ys[n]);
      assert (x + y) + last == x + (y + last);
      assert (xs + ys)[..|xs + ys| - 1] == xs + ys[..n] && (xs + ys)[|xs + ys| - 1] == ys[n];
    }
  }
}
