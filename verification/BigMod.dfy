/**
 Modular arithmetic on big numbers of N = 2^n words (uint4096.c): Barrett
 reduction of a double-width number, modular products, and square-and-multiply.
 */
module BigMod {
  import opened Arithmetic
  import opened Words
  import opened Karatsuba
  import opened Barrett

  /** A modulus of N words with its precomputed reciprocal of 2N words. */
  datatype Modulus = Modulus(n: nat, words: array<Word>, reciprocal: array<Word>)
  {
    predicate Fits() {
      words.Length == Size(n) && reciprocal.Length == 2 * Size(n) && words != reciprocal
    }

    ghost function Number(): nat
      reads words
    {
      Value(words[..])
    }

    ghost function Reciprocal(): nat
      reads reciprocal
    {
      Value(reciprocal[..])
    }

    /** What the words of a double-width number wrap around at. */
    function Double(): nat {
      Base(2 * Size(n))
    }

    /** The reciprocals that are good for every number. */
    ghost predicate Good()
      reads words, reciprocal
    {
      Fits() && 0 < Number() && (Double() % Number() == 0 || Reciprocal() * Number() <= Double() + 1)
    }
  }

  // ---- the steps of the reduction -----------------------------------------------------------------

  /** The upper half of the product with the reciprocal is the estimate. */
  lemma UpperHalfIsEstimate(result: seq<Word>, half: nat, a: nat, reciprocal: nat)
    requires |result| == 2 * half && Value(result) == a * reciprocal
    ensures Value(result[0..half]) == Estimate(a, reciprocal, Base(half))
  {
    assert result == result[0..half] + result[half..];
    ValueConcat(result[0..half], result[half..]);
    ValueBound(result[half..]);
    DivModUnique(a * reciprocal, Base(half), Value(result[0..half]), Value(result[half..]));
  }

  lemma LowerHalfIsRest(result: seq<Word>, half: nat)
    requires |result| == 2 * half
    ensures Value(result[half..2 * half]) == Value(result) % Base(half)
  {
    assert result == result[0..half] + result[half..] && result[half..] == result[half..2 * half];
    ValueConcat(result[0..half], result[half..]);
    ValueBound(result[half..]);
    DivModUnique(Value(result), Base(half), Value(result[0..half]), Value(result[half..]));
  }

  /** Adding the two's complement of p mod R to a is subtracting p, modulo R. */
  lemma ComplementSubtracts(half: nat, p: nat, low: nat, a: nat, v: nat, carry: Word)
    requires low == p % Base(half) && v < Base(half)
    requires carry <= 1 && v + Carried(carry, half) == Negated(low, half) + a
    ensures v == (a - p) % Base(half)
  {
    var R := Base(half);
    CongMod(p, R);
    var k: int := if low == 0 then 0 else 1;
    var c: int := if carry == 0 then 0 else 1;
    assert v == (a - low) + (k - c) * R by {
      assert (k - c) * R == k * R - c * R;
    }
    CongWitness(v, a - low, R, k - c);
    CongAdd(a, a, low, p, R);
    CongMod(v, R);
  }

  lemma SubtractOnce(half: nat, m: nat, v: nat, v': nat, carry: Word)
    requires 0 < m <= v < Base(half) && v' < Base(half)
    requires carry <= 1 && v' + Carried(carry, half) == v + Negated(m, half)
    ensures v' == v - m
  {}

  lemma {:induction false} SizeDouble(n: nat)
    ensures Size(n + 1) == 2 * Size(n)
  {}

  /** The modulus with as many zero words in front. */
  method Promote(M: Modulus) returns (promoted: array<Word>)
    requires M.Fits()
    ensures fresh(promoted) && promoted.Length == 2 * Size(M.n) && Value(promoted[..]) == M.Number()
  {
    var N := Size(M.n);
    promoted := new Word[2 * N];
    Clear(promoted);
    ghost var zeros := promoted[..N];
    assert forall i :: 0 <= i < N ==> zeros[i] == 0;
    Move(N, promoted, N, M.words, 0);
    assert promoted[..] == zeros + M.words[..] by {
      assert promoted[..N] == zeros && promoted[N..N + N] == M.words[0..0 + N] == M.words[..];
      assert promoted[..] == promoted[..N] + promoted[N..N + N];
    }
    ValueConcat(zeros, M.words[..]);
    ValueZeros(zeros);
  }

  /** The estimate of the quotient, in the upper half of the result. */
  method EstimateInto(M: Modulus, half: nat, result: array<Word>, a: array<Word>)
    requires M.Fits() && half == 2 * Size(M.n) && result.Length == 2 * half && a.Length == half
    requires result != a && result != M.reciprocal
    modifies result
    ensures Value(result[0..half]) == Estimate(Value(a[..]), M.Reciprocal(), Base(half))
  {
    SizeDouble(M.n);
    ghost var va, vr := Value(a[..]), M.Reciprocal();
    assert a[0..0 + half] == a[..] && M.reciprocal[0..0 + half] == M.reciprocal[..];
    hide Value, Base, Size, Estimate;
    Multiply(M.n + 1, result, 0, a, 0, M.reciprocal, 0);
    assert result[0..0 + 2 * half] == result[..];
    UpperHalfIsEstimate(result[..], half, va, vr);
    assert result[..][0..half] == result[0..half];
  }

  /** The multiple of the modulus that the reciprocal estimates, in the lower half of the result. */
  method EstimatedMultiple(M: Modulus, half: nat, result: array<Word>, promoted: array<Word>, a: array<Word>)
    requires M.Fits() && half == 2 * Size(M.n) && result.Length == 2 * half && promoted.Length == a.Length == half
    requires result != promoted && result != a && result != M.reciprocal && Value(promoted[..]) == M.Number()
    modifies result
    ensures Value(result[half..half + half])
         == Times(Estimate(Value(a[..]), M.Reciprocal(), Base(half)), M.Number()) % Base(half)
  {
    EstimateInto(M, half, result, a);
    SizeDouble(M.n);
    assert promoted[0..0 + half] == promoted[..] && result[0..0 + half] == result[0..half];
    hide Value, Base, Size, Estimate;
    MultiplyBack(M, half, result, promoted);
    assert result[0..0 + 2 * half] == result[..];
    LowerHalfIsRest(result[..], half);
    assert result[..][half..2 * half] == result[half..half + half];
  }

  method MultiplyBack(M: Modulus, half: nat, result: array<Word>, promoted: array<Word>)
    requires M.Fits() && half == 2 * Size(M.n) == Size(M.n + 1) && result.Length == 2 * half && promoted.Length == half
    requires result != promoted
    modifies result
    ensures Value(result[..]) == Times(Value(old(result[0..half])), Value(promoted[..]))
  {
    assert promoted[0..0 + half] == promoted[..] && result[0..0 + half] == result[0..half];
    assert forall x: nat, y: nat :: Times(x, y) == x * y;
    hide *;
    Multiply(M.n + 1, result, 0, result, 0, promoted, 0);
    assert result[0..0 + 2 * half] == result[..];
  }

  /** a - estimate * modulus, in the lower half of the result. */
  method EstimateAndSubtract(M: Modulus, half: nat, result: array<Word>, promoted: array<Word>, a: array<Word>)
    requires M.Fits() && half == 2 * Size(M.n) && result.Length == 2 * half && promoted.Length == a.Length == half
    requires result != promoted && result != a && result != M.reciprocal && Value(promoted[..]) == M.Number()
    modifies result
    ensures Value(result[half..half + half]) == Rest(Value(a[..]), M.Reciprocal(), M.Number(), Base(half))
  {
    ghost var va, vr, m := Value(a[..]), M.Reciprocal(), M.Number();
    assert a[0..0 + half] == a[..];
    EstimatedMultiple(M, half, result, promoted, a);
    hide *;
    ghost var low := Value(result[half..half + half]);
    Negate(half, result, half, result, half);
    var carry := Add(half, result, half, result, half, a, 0);
    ValueBound(result[half..half + half]);
    RestIs(half, va, vr, m, low, Value(result[half..half + half]), carry);
  }

  lemma RestIs(half: nat, a: nat, reciprocal: nat, m: nat, low: nat, v: nat, carry: Word)
    requires low == Times(Estimate(a, reciprocal, Base(half)), m) % Base(half) && v < Base(half)
    requires carry <= 1 && v + Carried(carry, half) == Negated(low, half) + a
    ensures v == Rest(a, reciprocal, m, Base(half))
  {
    MulNonNeg(Estimate(a, reciprocal, Base(half)), m);
    ComplementSubtracts(half, Estimate(a, reciprocal, Base(half)) * m, low, a, v, carry);
  }

  // ---- the reduction ------------------------------------------------------------------------------

  /**
   uint8192_mod_o, for any reciprocal: the estimated multiple is subtracted, and then
   the modulus as often as it fits. The result may overwrite any of the inputs.
   */
  method Reduce(M: Modulus, out: array<Word>, a: array<Word>) returns (ghost rounds: nat)
    requires M.Fits() && 0 < M.Number() && out.Length == Size(M.n) && a.Length == 2 * Size(M.n)
    modifies out
    ensures Value(out[..]) == old(Reduced(Value(a[..]), M.Reciprocal(), M.Number(), M.Double()))
    ensures rounds == old(Rounds(Value(a[..]), M.Reciprocal(), M.Number(), M.Double()))
  {
    hide Value, Base, Times, Estimate;
    var N := Size(M.n);
    var half := 2 * N;
    ghost var va, vr, m := Value(a[..]), M.Reciprocal(), M.Number();
    var result := new Word[4 * N];
    var promoted := Promote(M);
    EstimateAndSubtract(M, half, result, promoted, a);
    ghost var rest := Value(result[half..half + half]);
    rounds := SubtractWhileFits(half, result, promoted, m);
    assert Value(result[half..half + half]) == rest % m;
    ModulusBound(M);
    LowestWords(result[..], N, m);
    assert result[..][3 * N..4 * N] == result[3 * N..3 * N + N];
    Move2(N, out, result, 3 * N);
  }

  lemma ModulusBound(M: Modulus)
    requires M.Fits()
    ensures M.Number() < Base(Size(M.n))
  {
    ValueBound(M.words[..]);
  }

  /** A result below the modulus is in the lowest N words. */
  lemma LowestWords(result: seq<Word>, N: nat, m: nat)
    requires |result| == 4 * N && 0 < m && m < Base(N) && Value(result[2 * N..2 * N + 2 * N]) < m
    ensures Value(result[3 * N..4 * N]) == Value(result[2 * N..2 * N + 2 * N])
  {
    hide Value, Base;
    var lower := result[2 * N..2 * N + 2 * N];
    assert lower == result[2 * N..3 * N] + result[3 * N..4 * N];
    ValueConcat(result[2 * N..3 * N], result[3 * N..4 * N]);
    assert |result[3 * N..4 * N]| == N;
    NothingAbove(Value(result[2 * N..3 * N]), Base(N), Value(result[3 * N..4 * N]), m);
  }

  lemma NothingAbove(x: nat, base: nat, y: nat, m: int)
    requires x * base + y < m <= base
    ensures x * base + y == y
  {
    if 0 < x {
      MulMono(1, x, base);
    }
  }

  /** memcpy of the result */
  method Move2(n: nat, out: array<Word>, src: array<Word>, from: nat)
    requires out.Length == n && Run(src, from, n) && out != src
    modifies out
    ensures out[..] == src[from..from + n]
  {
    Move(n, out, 0, src, from);
    assert out[0..0 + n] == out[..];
  }

  /** The correction loop. */
  method SubtractWhileFits(half: nat, result: array<Word>, promoted: array<Word>, ghost m: nat)
    returns (ghost rounds: nat)
    requires result.Length == 2 * half && promoted.Length == half && result != promoted
    requires 0 < m == Value(promoted[..])
    modifies result
    ensures Value(result[half..half + half]) == Value(old(result[half..half + half])) % m
    ensures rounds == Value(old(result[half..half + half])) / m
  {
    ghost var start := Value(result[half..half + half]);
    assert promoted[0..0 + half] == promoted[..];
    rounds := 0;
    hide Value, Base, Negated, Carried;
    while true
      invariant Value(promoted[0..0 + half]) == m
      invariant start == rounds * m + Value(result[half..half + half])
      decreases Value(result[half..half + half])
    {
      var fits := LessOrEqual(half, promoted, 0, result, half);
      if !fits {
        break;
      }
      ghost var before := Value(result[half..half + half]);
      SubtractModulus(half, result, promoted);
      assert (rounds + 1) * m == rounds * m + m;
      rounds := rounds + 1;
    }
    DivModUnique(start, m, rounds, Value(result[half..half + half]));
  }

  method SubtractModulus(half: nat, result: array<Word>, promoted: array<Word>)
    requires result.Length == 2 * half && promoted.Length == half && result != promoted
    requires 0 < Value(promoted[0..0 + half]) <= Value(result[half..half + half])
    modifies result
    ensures Value(result[half..half + half]) == Value(old(result[half..half + half])) - Value(promoted[0..0 + half])
  {
    ghost var m, v := Value(promoted[0..0 + half]), Value(result[half..half + half]);
    ValueBound(result[half..half + half]);
    var negated := new Word[half];
    hide Value, Base, Negated, Carried;
    Negate(half, negated, 0, promoted, 0);
    var carry := Add(half, result, half, result, half, negated, 0);
    ValueBound(result[half..half + half]);
    SubtractOnce(half, m, v, Value(result[half..half + half]), carry);
  }

  // ---- modular products and powers ------------------------------------------------------------------

  function MulMod(a: nat, b: nat, m: nat): nat
    requires 0 < m
  {
    (a * b) % m
  }

  /** uint4096_multmod_o; the result may overwrite a factor, or the two factors be the same. */
  method MultMod(M: Modulus, out: array<Word>, a: array<Word>, b: array<Word>)
    requires M.Good() && out.Length == a.Length == b.Length == Size(M.n)
    requires out != M.words && out != M.reciprocal
    modifies out
    ensures Value(out[..]) == MulMod(Value(old(a[..])), Value(old(b[..])), M.Number())
  {
    var N := Size(M.n);
    ghost var va, vb, m := Value(a[..]), Value(b[..]), M.Number();
    var product := new Word[2 * N];
    assert a[0..0 + N] == a[..] && b[0..0 + N] == b[..];
    Multiply(M.n, product, 0, a, 0, b, 0);
    assert product[0..0 + 2 * N] == product[..];
    ValueBound(product[..]);
    GoodReduces(M, Value(product[..]));
    ghost var rounds := Reduce(M, out, product);
  }

  lemma GoodReduces(M: Modulus, a: nat)
    requires M.Good() && a < M.Double()
    ensures Reduced(a, M.Reciprocal(), M.Number(), M.Double()) == a % M.Number()
  {
    if M.Double() % M.Number() == 0 {
      WrapHarmless(a, M.Reciprocal(), M.Number(), M.Double());
    } else {
      ReducedIsRemainder(a, M.Reciprocal(), M.Number(), M.Double());
    }
  }

  const WORD_BITS: nat := 64

  lemma WordIsPower()
    ensures Pow(2, WORD_BITS) == WORD
  {
    assert Pow(2, 4) == 16 by { assert Pow(2, 1) == 2; assert Pow(2, 2) == 4; assert Pow(2, 3) == 8; }
    PowAdd(2, 4, 4);
    PowAdd(2, 8, 8);
    PowAdd(2, 16, 16);
    PowAdd(2, 32, 32);
  }

  /** The number without its i lowest bits. */
  function Shifted(e: nat, i: nat): (r: nat)
    ensures r <= e
  {
    if i == 0 then e else Shifted(e, i - 1) / 2
  }

  lemma HalveBounds(r: nat, p: int, e: int)
    requires 1 <= p && r * p <= e < r * p + p
    ensures (r / 2) * (2 * p) <= e < (r / 2) * (2 * p) + 2 * p
  {
    var q, b := r / 2, r % 2;
    assert r == 2 * q + b;
    HalvesTimes(q, b, p);
  }

  lemma HalvesTimes(q: int, b: int, p: int)
    requires b == 0 || b == 1
    ensures (2 * q + b) * p == q * (2 * p) + (if b == 0 then 0 else p)
  {
    if b == 0 {
      MulAssoc(q, 2, p);
      MulComm(q, 2);
    } else {
      HalvesTimes(q, 0, p);
      MulDistrib(p, 2 * q, 1);
      MulComm(p, 2 * q + 1);
      MulComm(p, 2 * q);
    }
  }

  lemma {:induction false} ShiftedIs(e: nat, i: nat)
    ensures Shifted(e, i) * Pow(2, i) <= e < Shifted(e, i) * Pow(2, i) + Pow(2, i)
  {
    if i > 0 {
      ShiftedIs(e, i - 1);
      PowPositive(2, i - 1);
      HalveBounds(Shifted(e, i - 1), Pow(2, i - 1), e);
    }
  }

  lemma ShiftedUnique(e: nat, i: nat, r: nat)
    requires r * Pow(2, i) <= e < r * Pow(2, i) + Pow(2, i)
    ensures Shifted(e, i) == r
  {
    ShiftedIs(e, i);
    PowPositive(2, i);
    var s, p := Shifted(e, i), Pow(2, i);
    DivModUnique(e, p, s, e - s * p);
    DivModUnique(e, p, r, e - r * p);
  }

  lemma {:induction false} ShiftedTwice(e: nat, i: nat, j: nat)
    ensures Shifted(Shifted(e, i), j) == Shifted(e, i + j)
  {
    if j > 0 { ShiftedTwice(e, i, j - 1); }
  }

  /** Dropping k words' worth of bits drops the last k words. */
  lemma {:induction false} ShiftedWords(s: seq<Word>, k: nat)
    requires k <= |s|
    ensures Shifted(Value(s), k * WORD_BITS) == Value(s[..|s| - k])
  {
    var upper, lower := s[..|s| - k], s[|s| - k..];
    assert s == upper + lower;
    ValueConcat(upper, lower);
    ValueBound(lower);
    BaseIsPower(k);
    ShiftedUnique(Value(s), k * WORD_BITS, Value(upper));
  }

  lemma {:induction false} BaseIsPower(k: nat)
    ensures Base(k) == Pow(2, k * WORD_BITS)
  {
    if k > 0 {
      BaseIsPower(k - 1);
      WordIsPower();
      PowAdd(2, WORD_BITS, (k - 1) * WORD_BITS);
      assert WORD_BITS + (k - 1) * WORD_BITS == k * WORD_BITS;
    }
  }

  /** Shifting out bits of the lowest word. */
  lemma {:induction false} LowWordShift(v: nat, w: Word, j: nat)
    requires j <= WORD_BITS
    ensures Shifted(v * WORD + w, j) == v * Pow(2, WORD_BITS - j) + Shifted(w, j)
  {
    if j == 0 {
      WordIsPower();
    } else {
      LowWordShift(v, w, j - 1);
      var q := Pow(2, WORD_BITS - j);
      assert Pow(2, WORD_BITS - (j - 1)) == 2 * q;
      HalfOfSum(v, q, Shifted(w, j - 1));
    }
  }

  /** Bit j of the lowest word is bit j of the number. */
  lemma LowWordBits(v: nat, w: Word, j: nat)
    requires j < WORD_BITS
    ensures Shifted(v * WORD + w, j) % 2 == Shifted(w, j) % 2
  {
    LowWordShift(v, w, j);
    var q := Pow(2, WORD_BITS - j - 1);
    assert Pow(2, WORD_BITS - j) == 2 * q;
    hide *;
    HalfOfSum(v, q, Shifted(w, j));
  }

  lemma HalfOfSum(v: int, q: int, x: int)
    ensures (v * (2 * q) + x) / 2 == v * q + x / 2 && (v * (2 * q) + x) % 2 == x % 2
  {
    var t := v * q;
    assert v * (2 * q) == 2 * t;
  }

  lemma ValueLast(s: seq<Word>)
    requires s != []
    ensures Value(s) == Value(s[..|s| - 1]) * WORD + s[|s| - 1]
  {}

  /** The bit that square-and-multiply looks at in round i. */
  lemma BitOfWords(s: seq<Word>, i: nat)
    requires i / WORD_BITS < |s|
    ensures Shifted(Value(s), i) % 2 == Shifted(s[|s| - 1 - i / WORD_BITS], i % WORD_BITS) % 2
  {
    hide Value, Shifted;
    var k, j := i / WORD_BITS, i % WORD_BITS;
    assert i == k * WORD_BITS + j;
    ShiftedWords(s, k);
    ShiftedTwice(Value(s), k * WORD_BITS, j);
    var upper := s[..|s| - k];
    assert upper[|upper| - 1] == s[|s| - 1 - k];
    ValueLast(upper);
    LowWordBits(Value(upper[..|upper| - 1]), upper[|upper| - 1], j);
  }

  // ---- square and multiply ------------------------------------------------------------------------

  /** One round: the invariant outcome * base^rest = target, with rest halved and the base squared. */
  ghost predicate Accumulates(o: nat, b: nat, rest: nat, m: nat, target: int) {
    0 < m && o < m && Cong(o * Pow(b, rest), target, m)
  }

  lemma SquareStep(o: nat, b: nat, r: nat, o': nat, b': nat, m: nat, target: int)
    requires Accumulates(o, b, r, m, target)
    requires o' == if r % 2 == 1 then MulMod(o, b, m) else o
    requires b' == MulMod(b, b, m)
    ensures Accumulates(o', b', r / 2, m, target)
  {
    var half := r / 2;
    var x, y := Pow(b * b, half), Pow(b', half);
    CongMod(b * b, m);
    CongPow(b', b * b, half, m);
    SquaredPower(b, half);
    if r % 2 == 1 {
      assert Pow(b, r) == b * Pow(b, 2 * half);
      CongMod(o * b, m);
      CongMul(o', o * b, y, x, m);
      MulAssoc(o, b, x);
    } else {
      CongScale(o, y, x, m);
    }
  }

  lemma SquaredPower(b: int, half: nat)
    ensures Pow(b * b, half) == Pow(b, 2 * half)
  {
    assert Pow(b, 2) == b * Pow(b, 1) && Pow(b, 1) == b * Pow(b, 0) && Pow(b, 0) == 1;
    PowMul(b, 2, half);
  }

  /** The scan from the left for the highest set bit: one more than its position. */
  method BitLength(exponent: array<Word>) returns (maxBit: int)
    requires 0 < exponent.Length
    ensures maxBit <= exponent.Length * WORD_BITS
    ensures 0 < maxBit ==> Shifted(Value(exponent[..]), maxBit) == 0
    ensures maxBit <= 0 ==> Value(exponent[..]) == 0
  {
    hide Value, Shifted, Pow;
    var N := exponent.Length;
    var top := 0;
    while top < N && exponent[top] == 0
      invariant top <= N && forall j :: 0 <= j < top ==> exponent[j] == 0
    {
      top := top + 1;
    }
    var word := if top < N then exponent[top] else 0;
    maxBit := (N - 1 - top) * WORD_BITS;
    if top == N {
      ValueZeros(exponent[..]);
      return;
    }
    ghost var first, start, s := word, maxBit, exponent[..];
    ShiftedWords(s, N - 1 - top);
    LeadingZeros(s, top);
    ghost var bits := 0;
    WordIsPower();
    ShiftedUnique(first, WORD_BITS, 0);
    ShiftedAtZero(first);
    while word > 0
      invariant 0 <= bits <= WORD_BITS && maxBit == start + bits && word == Shifted(first, bits)
      decreases word
    {
      ShiftedOnce(first, bits);
      word := word / 2;
      maxBit, bits := maxBit + 1, bits + 1;
    }
    ShiftedTwice(Value(s), start, bits);
    assert bits == 0 ==> first == 0 && first > 0;
    assert (N - 1 - top) * WORD_BITS + WORD_BITS == (N - top) * WORD_BITS;
  }

  lemma ShiftedAtZero(e: nat)
    ensures Shifted(e, 0) == e
  {}

  lemma ShiftedOnce(e: nat, i: nat)
    ensures Shifted(e, i + 1) == Shifted(e, i) / 2
  {}

  lemma LeadingZeros(s: seq<Word>, top: nat)
    requires top < |s| && forall j :: 0 <= j < top ==> s[j] == 0
    ensures Value(s[..|s| - (|s| - 1 - top)]) == s[top]
  {
    assert s[..top + 1][..top] == s[..top];
    ValueZeros(s[..top]);
    assert Value(s[..top + 1]) == Value(s[..top]) * WORD + s[top];
  }

  /** uint4096_powmod_o, for every base and exponent: zero exponents and bases above the modulus included. */
  method PowMod(M: Modulus, out: array<Word>, base: array<Word>, exponent: array<Word>)
    requires M.Good() && 2 <= M.Number()
    requires out.Length == base.Length == exponent.Length == Size(M.n)
    modifies out
    ensures Value(out[..]) == old(Pow(Value(base[..]), Value(exponent[..])) % M.Number())
  {
    hide Value, Pow, Shifted;
    var N := Size(M.n);
    ghost var b, e, m := Value(base[..]), Value(exponent[..]), M.Number();
    ghost var target := Pow(b, e);
    var maxBit := BitLength(exponent);
    var rounds := if maxBit < 0 then 0 else maxBit;
    var outTmp, baseTmp := new Word[N], new Word[N];
    Clear(outTmp);
    outTmp[N - 1] := 1;
    OneValue(outTmp[..]);
    Move2(N, baseTmp, base, 0);
    assert base[0..0 + N] == base[..] && 1 * target == target;
    assert Accumulates(Value(outTmp[..]), Value(baseTmp[..]), e, m, target);
    SquareAndMultiply(M, outTmp, baseTmp, exponent, rounds, target);
    Move2(N, out, outTmp, 0);
    assert outTmp[0..0 + N] == outTmp[..];
  }

  method SquareAndMultiply(M: Modulus, outTmp: array<Word>, baseTmp: array<Word>, exponent: array<Word>, rounds: nat,
                           ghost target: int)
    requires M.Good() && outTmp.Length == baseTmp.Length == exponent.Length == Size(M.n)
    requires outTmp != baseTmp && outTmp != exponent && baseTmp != exponent
    requires {outTmp, baseTmp} !! {M.words, M.reciprocal}
    requires rounds <= Size(M.n) * WORD_BITS && Shifted(Value(exponent[..]), rounds) == 0
    requires Accumulates(Value(outTmp[..]), Value(baseTmp[..]), Value(exponent[..]), M.Number(), target)
    modifies outTmp, baseTmp
    ensures Value(outTmp[..]) == target % M.Number()
  {
    ghost var e := Value(exponent[..]);
    ghost var rest := e;
    ShiftedAtZero(e);
    hide Value, Size, Shifted, Accumulates;
    for i := 0 to rounds
      invariant rest == Shifted(e, i)
      invariant Accumulates(Value(outTmp[..]), Value(baseTmp[..]), rest, M.Number(), target)
    {
      rest := Round(M, outTmp, baseTmp, exponent, i, rest, target);
    }
    NothingLeft(Value(outTmp[..]), Value(baseTmp[..]), M.Number(), target);
  }

  lemma NothingLeft(o: nat, b: nat, m: nat, target: int)
    requires Accumulates(o, b, 0, m, target)
    ensures o == target % m
  {
    assert Pow(b, 0) == 1;
    CongMod(target, m);
    CongSmall(o, target % m, m);
  }

  lemma OneValue(s: seq<Word>)
    requires 0 < |s| && s[|s| - 1] == 1 && forall i :: 0 <= i < |s| - 1 ==> s[i] == 0
    ensures Value(s) == 1
  {
    ValueZeros(s[..|s| - 1]);
  }

  /** The body of the loop, for bit i of the exponent. */
  method Round(M: Modulus, outTmp: array<Word>, baseTmp: array<Word>, exponent: array<Word>, i: nat,
               ghost rest: nat, ghost target: int)
    returns (ghost next: nat)
    requires M.Good() && outTmp.Length == baseTmp.Length == exponent.Length == Size(M.n)
    requires outTmp != baseTmp && outTmp != exponent && baseTmp != exponent
    requires {outTmp, baseTmp} !! {M.words, M.reciprocal}
    requires i < Size(M.n) * WORD_BITS && rest == Shifted(Value(exponent[..]), i)
    requires Accumulates(Value(outTmp[..]), Value(baseTmp[..]), rest, M.Number(), target)
    modifies outTmp, baseTmp
    ensures next == Shifted(Value(exponent[..]), i + 1)
    ensures Accumulates(Value(outTmp[..]), Value(baseTmp[..]), next, M.Number(), target)
  {
    ghost var o, b, m := Value(outTmp[..]), Value(baseTmp[..]), M.Number();
    var position := exponent.Length - 1 - i / WORD_BITS;
    BitOfWords(exponent[..], i);
    hide Value, Accumulates, Size, Shifted, MulMod;
    next := rest / 2;
    ShiftedOnce(Value(exponent[..]), i);
    if Shifted(exponent[position], i % WORD_BITS) % 2 == 1 {
      MultMod(M, outTmp, outTmp, baseTmp);
    }
    MultMod(M, baseTmp, baseTmp, baseTmp);
    SquareStep(o, b, rest, Value(outTmp[..]), Value(baseTmp[..]), m, target);
  }
}
