/**
 Multiplication of big numbers of 2^n words (uintfn_mult_o): textbook on half
 words for one word, Karatsuba's three products above, with the sign of the
 middle one kept apart and its negation done in two's complement.
 */
module Karatsuba {
  import opened Arithmetic
  import opened Words

  /** The number of words of a uintfn. */
  function Size(n: nat): (r: nat)
    ensures 1 <= r
  {
    if n == 0 then 1 else 2 * Size(n - 1)
  }

  /** A product by name, for contracts whose users need not look inside. */
  function Times(x: nat, y: nat): nat {
    MulNonNeg(x, y);
    x * y
  }

  // ---- one word by one word -------------------------------------------------------------------

  lemma PairValue(u: Word, v: Word)
    ensures Value([u, v]) == u * WORD + v
  {
    assert [u, v][..1] == [u] && [u][..0] == [];
    assert Value([u]) == u;
  }

  lemma BaseTwo()
    ensures Base(2) == WORD * WORD && Base(1) == WORD
  {
    assert Pow(WORD, 0) == 1 && Pow(WORD, 1) == WORD * Pow(WORD, 0) && Pow(WORD, 2) == WORD * Pow(WORD, 1);
  }

  /** A middle product, shifted up by half a word into two words. */
  lemma ShiftedMiddle(m: Word)
    ensures m / HALF < WORD && (m * HALF) % WORD < WORD
    ensures (m / HALF) * WORD + (m * HALF) % WORD == m * HALF
  {
    var q, r := m / HALF, m % HALF;
    assert m == q * HALF + r;
    assert m * HALF == q * WORD + r * HALF;
    assert 0 <= r * HALF < WORD;
  }

  lemma HalfProducts(x: Word, y: Word)
    ensures
      var xu, xl, yu, yl := x / HALF, x % HALF, y / HALF, y % HALF;
      && 0 <= xu * yu < WORD && 0 <= xl * yl < WORD && 0 <= xu * yl < WORD && 0 <= yu * xl < WORD
      && x * y == (xu * yu) * WORD + (xu * yl + yu * xl) * HALF + xl * yl
      && x * y < WORD * WORD
  {
    var xu, xl, yu, yl := x / HALF, x % HALF, y / HALF, y % HALF;
    HalfBound(xu, yu);
    HalfBound(xl, yl);
    HalfBound(xu, yl);
    HalfBound(yu, xl);
    assert x == xu * HALF + xl && y == yu * HALF + yl;
    ProductOfSums(xu, xl, yu, yl);
    MulMono(x, WORD - 1, y);
    MulMono(y, WORD - 1, WORD - 1);
  }

  lemma HalfBound(u: nat, v: nat)
    requires u < HALF && v < HALF
    ensures 0 <= u * v < WORD
  {
    MulMono(u, HALF - 1, v);
  }

  lemma ProductOfSums(xu: int, xl: int, yu: int, yl: int)
    ensures (xu * HALF + xl) * (yu * HALF + yl) == (xu * yu) * WORD + (xu * yl + yu * xl) * HALF + xl * yl
  {
    var x := xu * HALF + xl;
    MulDistrib(x, yu * HALF, yl);
    assert x * (yu * HALF) == (x * yu) * HALF;
    assert x * yu == (xu * yu) * HALF + xl * yu;
    assert x * yl == (xu * yl) * HALF + xl * yl;
    assert xl * yu == yu * xl;
  }

  /** The base case of uintfn_mult_o. */
  method MultiplyWords(x: Word, y: Word, out: array<Word>, oo: nat)
    requires Run(out, oo, 2)
    modifies out
    ensures out[..oo] == old(out[..oo]) && out[oo + 2..] == old(out[oo + 2..])
    ensures Value(out[oo..oo + 2]) == x * y
  {
    var xUpper, yUpper, xLower, yLower := x / HALF, y / HALF, x % HALF, y % HALF;
    HalfProducts(x, y);
    out[oo] := xUpper * yUpper;
    out[oo + 1] := xLower * yLower;
    assert out[oo..oo + 2] == [out[oo], out[oo + 1]];
    PairValue(out[oo], out[oo + 1]);
    var middle1, middle2 := xUpper * yLower, yUpper * xLower;
    ghost var first := Value(out[oo..oo + 2]);
    AddMiddle(out, oo, middle1);
    assert Value(out[oo..oo + 2]) == first + middle1 * HALF;
    AddMiddle(out, oo, middle2);
  }

  method AddMiddle(out: array<Word>, oo: nat, middle: Word)
    requires Run(out, oo, 2) && Value(out[oo..oo + 2]) + middle * HALF < WORD * WORD
    modifies out
    ensures out[..oo] == old(out[..oo]) && out[oo + 2..] == old(out[oo + 2..])
    ensures Value(out[oo..oo + 2]) == Value(old(out[oo..oo + 2])) + middle * HALF
  {
    ShiftedMiddle(middle);
    var shifted := new Word[2];
    shifted[0], shifted[1] := middle / HALF, (middle * HALF) % WORD;
    assert shifted[0..2] == [shifted[0], shifted[1]];
    PairValue(shifted[0], shifted[1]);
    var carry := Add(2, out, oo, out, oo, shifted, 0);
    BaseTwo();
  }

  // ---- Karatsuba's identity -----------------------------------------------------------------------

  /** The magnitude of low - high, and whether it is not negative. */
  function Distance(high: nat, low: nat): nat {
    if high <= low then low - high else high - low
  }

  /** Two's complement plus the larger number is the difference. */
  lemma DifferenceOf(n: nat, smaller: nat, larger: nat, v: nat, carry: Word)
    requires smaller <= larger < Base(n) && v < Base(n)
    requires v + Carried(carry, n) == Negated(smaller, n) + larger
    ensures v == larger - smaller == Distance(smaller, larger) == Distance(larger, smaller)
  {}

  /** The three additions into the middle, modulo the words it has, end in its true value. */
  lemma MiddleValue(m: nat, negative: bool, p: int, x: nat, y: nat, v1: nat, v2: nat, v3: nat, c2: nat, c3: nat, t: int)
    requires 0 <= p < m && 0 <= t < m && v3 < m && v2 < m
    requires v1 == if negative then (if p == 0 then 0 else m - p) else p
    requires (c2 == 0 || c2 == m) && (c3 == 0 || c3 == m)
    requires v2 + c2 == v1 + x && v3 + c3 == v2 + y
    requires t == (if negative then -p else p) + x + y
    ensures v3 == t
  {}

  /** What is left in the middle are the two mixed products. */
  lemma MixedProducts(ah: nat, al: nat, bh: nat, bl: nat)
    ensures
      var p: int := Distance(ah, al) * Distance(bh, bl);
      var negative := (ah <= al) == (bh <= bl);
      (if negative then -p else p) + ah * bh + al * bl == ah * bl + al * bh
  {
    assert (al - ah) * (bl - bh) == al * bl - al * bh - ah * bl + ah * bh;
    assert (ah - al) * (bl - bh) == -((al - ah) * (bl - bh));
    assert (al - ah) * (bh - bl) == -((al - ah) * (bl - bh));
    assert (ah - al) * (bh - bl) == (al - ah) * (bl - bh);
  }

  lemma ProductBound(x: nat, y: nat, r: nat)
    requires x < r && y < r
    ensures 0 <= x * y < r * r
  {
    MulMono(x, r - 1, y);
    MulMono(y, r - 1, r - 1);
    assert (r - 1) * (r - 1) == r * r - 2 * r + 1;
  }

  lemma MiddleBound(ah: nat, al: nat, bh: nat, bl: nat, r: nat)
    requires ah < r && al < r && bh < r && bl < r
    ensures 0 <= ah * bl + al * bh < WORD * (r * r)
    ensures 0 <= Distance(ah, al) * Distance(bh, bl) < WORD * (r * r)
  {
    ProductBound(ah, bl, r);
    ProductBound(al, bh, r);
    ProductBound(Distance(ah, al), Distance(bh, bl), r);
  }

  /** Karatsuba: the outer products and the shifted middle make up the product. */
  lemma ProductOfParts(ah: int, al: int, bh: int, bl: int, r: int)
    ensures (ah * bh) * (r * r) + al * bl + (ah * bl + al * bh) * r == (ah * r + al) * (bh * r + bl)
  {
    var a := ah * r + al;
    MulDistrib(a, bh * r, bl);
    MulAssoc(a, bh, r);
    assert a * bh == (ah * r) * bh + al * bh;
    assert (ah * r) * bh == (ah * bh) * r;
    assert ((ah * bh) * r + al * bh) * r == ((ah * bh) * r) * r + (al * bh) * r;
    MulAssoc(ah * bh, r, r);
    assert a * bl == (ah * r) * bl + al * bl;
    assert (ah * r) * bl == (ah * bl) * r;
    assert (ah * bl + al * bh) * r == (ah * bl) * r + (al * bh) * r;
  }

  // ---- the steps --------------------------------------------------------------------------------------

  /** The larger number less the smaller, as a negation and an addition. */
  method Subtract(n: nat, diff: array<Word>, a: array<Word>, smaller: nat, larger: nat)
    requires Run(diff, 0, n) && Run(a, smaller, n) && Run(a, larger, n) && diff != a
    requires Value(a[smaller..smaller + n]) <= Value(a[larger..larger + n])
    modifies diff
    ensures Value(diff[0..n]) == Value(a[larger..larger + n]) - Value(a[smaller..smaller + n])
    ensures Value(diff[0..n]) == Distance(Value(a[smaller..smaller + n]), Value(a[larger..larger + n]))
    ensures Value(diff[0..n]) == Distance(Value(a[larger..larger + n]), Value(a[smaller..smaller + n]))
  {
    ghost var low, high := Value(a[smaller..smaller + n]), Value(a[larger..larger + n]);
    ValueBound(a[larger..larger + n]);
    hide Value, Base, Negated, Carried, Distance;
    Negate(n, diff, 0, a, smaller);
    var carry := Add(n, diff, 0, diff, 0, a, larger);
    ValueBound(diff[0..n]);
    DifferenceOf(n, low, high, Value(diff[0..n]), carry);
  }

  /** The distance of the two halves of a number, and the sign of their difference. */
  method AbsDifference(n: nat, diff: array<Word>, a: array<Word>, ao: nat) returns (notNegative: bool)
    requires Run(diff, 0, n) && Run(a, ao, n + n) && diff != a
    modifies diff
    ensures notNegative <==> Value(a[ao..ao + n]) <= Value(a[ao + n..ao + n + n])
    ensures Value(diff[0..n]) == Distance(Value(a[ao..ao + n]), Value(a[ao + n..ao + n + n]))
  {
    hide Value, Distance;
    notNegative := LessOrEqual(n, a, ao, a, ao + n);
    if notNegative {
      Subtract(n, diff, a, ao, ao + n);
    } else {
      Subtract(n, diff, a, ao + n, ao);
    }
  }

  /** memmove of n words between different buffers */
  method Move(n: nat, dst: array<Word>, to: nat, src: array<Word>, from: nat)
    requires Run(dst, to, n) && Run(src, from, n) && dst != src
    modifies dst
    ensures dst[..to] == old(dst[..to]) && dst[to + n..] == old(dst[to + n..])
    ensures dst[to..to + n] == src[from..from + n]
  {
    for i := 0 to n
      invariant dst[..] == old(dst[..to]) + src[from..from + i] + old(dst[to + i..])
    {
      dst[to + i] := src[from + i];
    }
  }

  /** memset to zero */
  method Clear(x: array<Word>)
    modifies x
    ensures forall i :: 0 <= i < x.Length ==> x[i] == 0
  {
    for i := 0 to x.Length
      invariant forall j :: 0 <= j < i ==> x[j] == 0
    {
      x[i] := 0;
    }
  }

  /** A run with zeros in front of it and behind it. */
  lemma PaddedValue(s: seq<Word>, front: nat, behind: nat)
    requires front + behind <= |s|
    requires forall i :: 0 <= i < front || |s| - behind <= i < |s| ==> s[i] == 0
    ensures Value(s) == Value(s[front..|s| - behind]) * Base(behind)
  {
    hide Value, Base;
    var middle, tail := s[front..|s| - behind], s[|s| - behind..];
    assert s == (s[..front] + middle) + tail;
    ValueConcat(s[..front] + middle, tail);
    ValueConcat(s[..front], middle);
    ValueZeros(s[..front]);
    ValueZeros(tail);
  }

  /** The middle of the sum: the signed product of the differences, and the two outer products. */
  method AddOuterProducts(small: nat, sum: array<Word>, outTmp: array<Word>, negative: bool,
                          ghost ah: nat, ghost al: nat, ghost bh: nat, ghost bl: nat)
    requires 1 <= small && sum.Length == outTmp.Length == 4 * small && sum != outTmp
    requires ah < Base(small) && al < Base(small) && bh < Base(small) && bl < Base(small)
    requires Value(outTmp[0..2 * small]) == Times(ah, bh) && Value(outTmp[2 * small..4 * small]) == Times(al, bl)
    requires Value(sum[small - 1..3 * small]) == Times(Distance(ah, al), Distance(bh, bl))
    requires negative <==> ((ah <= al) <==> (bh <= bl))
    modifies sum
    ensures sum[..small - 1] == old(sum[..small - 1]) && sum[3 * small..] == old(sum[3 * small..])
    ensures Value(sum[small - 1..3 * small]) == Times(ah, bl) + Times(al, bh)
  {
    hide Value, Base, Distance, Times, Negated;
    var medium := 2 * small;
    var addend := new Word[medium + 1];
    ghost var x, y := Value(outTmp[0..2 * small]), Value(outTmp[2 * small..4 * small]);
    if negative {
      Negate(medium + 1, sum, small - 1, sum, small - 1);
    }
    ghost var v1 := Value(sum[small - 1..3 * small]);
    addend[0] := 0;
    ghost var c2 := AddToMiddle(small, sum, outTmp, 0, addend);
    ghost var v2 := Value(sum[small - 1..3 * small]);
    ghost var c3 := AddToMiddle(small, sum, outTmp, medium, addend);
    MiddleSum(small, negative, ah, al, bh, bl, v1, v2, Value(sum[small - 1..3 * small]), c2, c3, x, y);
  }

  /** The middle after its three steps. */
  lemma MiddleSum(small: nat, negative: bool, ah: nat, al: nat, bh: nat, bl: nat,
                  v1: nat, v2: nat, v3: nat, c2: nat, c3: nat, x: nat, y: nat)
    requires ah < Base(small) && al < Base(small) && bh < Base(small) && bl < Base(small)
    requires v2 < Base(2 * small + 1) && v3 < Base(2 * small + 1) && x == Times(ah, bh) && y == Times(al, bl)
    requires negative <==> ((ah <= al) <==> (bh <= bl))
    requires
      var p := Times(Distance(ah, al), Distance(bh, bl));
      v1 == if negative then Negated(p, 2 * small + 1) else p
    requires (c2 == 0 || c2 == Base(2 * small + 1)) && (c3 == 0 || c3 == Base(2 * small + 1))
    requires v2 + c2 == v1 + x && v3 + c3 == v2 + y
    ensures v3 == Times(ah, bl) + Times(al, bh)
  {
    MiddleFacts(small, ah, al, bh, bl);
    hide Base, Distance;
    MiddleValue(Base(2 * small + 1), negative, Distance(ah, al) * Distance(bh, bl), x, y, v1, v2, v3, c2, c3,
                ah * bl + al * bh);
  }

  /** One of the outer products, behind a zero word, added to the middle. */
  method AddToMiddle(small: nat, sum: array<Word>, outTmp: array<Word>, from: nat, addend: array<Word>)
    returns (ghost carried: nat)
    requires 1 <= small && sum.Length == outTmp.Length == 4 * small && from + 2 * small <= 4 * small
    requires addend.Length == 2 * small + 1 && addend[0] == 0
    requires sum != outTmp && addend != outTmp && sum != addend
    modifies sum, addend
    ensures addend[0] == 0
    ensures sum[..small - 1] == old(sum[..small - 1]) && sum[3 * small..] == old(sum[3 * small..])
    ensures carried == 0 || carried == Base(2 * small + 1)
    ensures Value(sum[small - 1..3 * small]) < Base(2 * small + 1)
    ensures Value(sum[small - 1..3 * small]) + carried
         == Value(old(sum[small - 1..3 * small])) + Value(outTmp[from..from + 2 * small])
  {
    hide Value, Base;
    var medium := 2 * small;
    Move(medium, addend, 1, outTmp, from);
    assert addend[..1] == [0];
    AddendValue(addend[..], outTmp[from..from + medium]);
    assert small - 1 + (medium + 1) == 3 * small && addend[..][0..0 + |addend[..]|] == addend[0..0 + (medium + 1)];
    var carry := Add(medium + 1, sum, small - 1, sum, small - 1, addend, 0);
    ValueBound(sum[small - 1..3 * small]);
    carried := Carried(carry, medium + 1);
  }

  lemma AddendValue(addend: seq<Word>, product: seq<Word>)
    requires |addend| == |product| + 1 && addend[0] == 0 && addend[1..1 + |product|] == product
    ensures Value(addend[0..0 + |addend|]) == Value(product)
  {
    assert addend == [0] + product && addend[0..0 + |addend|] == addend;
    ValueCons(0, product);
  }

  lemma MiddleFacts(small: nat, ah: nat, al: nat, bh: nat, bl: nat)
    requires ah < Base(small) && al < Base(small) && bh < Base(small) && bl < Base(small)
    ensures 0 <= ah * bl + al * bh < Base(2 * small + 1)
    ensures 0 <= Distance(ah, al) * Distance(bh, bl) < Base(2 * small + 1)
    ensures
      var p: int := Distance(ah, al) * Distance(bh, bl);
      (if (ah <= al) <==> (bh <= bl) then -p else p) + ah * bh + al * bl == ah * bl + al * bh
    ensures 0 <= ah * bh && 0 <= al * bl
  {
    BaseAdd(small, small);
    BaseSucc(small + small);
    MiddleBound(ah, al, bh, bl, Base(small));
    MixedProducts(ah, al, bh, bl);
    ProductBound(ah, bh, Base(small));
    ProductBound(al, bl, Base(small));
  }

  /** The last addition: the outer products and the shifted middle. No carry is lost. */
  method AddParts(small: nat, out: array<Word>, oo: nat, outTmp: array<Word>, sum: array<Word>,
                  ghost ah: nat, ghost al: nat, ghost bh: nat, ghost bl: nat, ghost va: nat, ghost vb: nat)
    requires 1 <= small && sum.Length == outTmp.Length == 4 * small && Run(out, oo, 4 * small)
    requires va == Times(ah, Base(small)) + al && vb == Times(bh, Base(small)) + bl
    requires out != sum && out != outTmp
    requires ah < Base(small) && al < Base(small) && bh < Base(small) && bl < Base(small)
    requires Value(outTmp[0..2 * small]) == Times(ah, bh) && Value(outTmp[2 * small..4 * small]) == Times(al, bl)
    requires Value(sum[small - 1..3 * small]) == Times(ah, bl) + Times(al, bh)
    requires forall i :: 0 <= i < small - 1 || 3 * small <= i < 4 * small ==> sum[i] == 0
    modifies out
    ensures out[..oo] == old(out[..oo]) && out[oo + 4 * small..] == old(out[oo + 4 * small..])
    ensures Value(out[oo..oo + 4 * small]) == Times(va, vb)
  {
    PartsValue(small, outTmp[..], sum[..], ah, al, bh, bl, va, vb);
    assert outTmp[0..0 + 4 * small] == outTmp[..] && sum[0..0 + 4 * small] == sum[..];
    assert outTmp[..][0..2 * small] == outTmp[0..2 * small];
    hide *;
    var carry := Add(4 * small, out, oo, outTmp, 0, sum, 0);
    ValueBound(out[oo..oo + 4 * small]);
    NoCarry(4 * small, carry, Value(out[oo..oo + 4 * small]), va * vb);
  }

  lemma PartsValue(small: nat, outTmp: seq<Word>, sum: seq<Word>,
                   ah: nat, al: nat, bh: nat, bl: nat, va: nat, vb: nat)
    requires 1 <= small && |sum| == |outTmp| == 4 * small
    requires ah < Base(small) && al < Base(small) && bh < Base(small) && bl < Base(small)
    requires va == ah * Base(small) + al && vb == bh * Base(small) + bl
    requires Value(outTmp[0..2 * small]) == ah * bh && Value(outTmp[2 * small..4 * small]) == al * bl
    requires Value(sum[small - 1..3 * small]) == ah * bl + al * bh
    requires forall i :: 0 <= i < small - 1 || 3 * small <= i < 4 * small ==> sum[i] == 0
    ensures Value(outTmp) + Value(sum) == va * vb < Base(4 * small)
  {
    hide Value, Base;
    assert 4 * small - small == 3 * small;
    PaddedValue(sum, small - 1, small);
    ValueConcat(outTmp[0..2 * small], outTmp[2 * small..4 * small]);
    assert outTmp[0..2 * small] + outTmp[2 * small..4 * small] == outTmp;
    BaseAdd(small, small);
    assert small + small == 2 * small;
    WholeBound(ah, al, bh, bl, small);
    AssembledProduct(ah, al, bh, bl, Base(small), Base(2 * small), Value(outTmp[0..2 * small]), Value(outTmp[2 * small..4 * small]),
                     Value(sum[small - 1..3 * small]), Value(outTmp), Value(sum), va, vb);
  }

  lemma AssembledProduct(ah: int, al: int, bh: int, bl: int, r: int, r2: int, upper: int, lower: int, middle: int,
                         x: int, y: int, va: int, vb: int)
    requires r2 == r * r && upper == ah * bh && lower == al * bl && middle == ah * bl + al * bh
    requires x == upper * r2 + lower && y == middle * r
    requires va == ah * r + al && vb == bh * r + bl
    ensures x + y == va * vb == (ah * r + al) * (bh * r + bl)
  {
    ProductOfParts(ah, al, bh, bl, r);
    assert x == (ah * bh) * (r * r) + al * bl;
    assert y == (ah * bl + al * bh) * r;
  }

  lemma NoCarry(n: nat, carry: Word, v: nat, total: int)
    requires carry <= 1 && v + Carried(carry, n) == total < Base(n)
    ensures v == total
  {}

  lemma WholeBound(ah: nat, al: nat, bh: nat, bl: nat, small: nat)
    requires ah < Base(small) && al < Base(small) && bh < Base(small) && bl < Base(small)
    ensures (ah * Base(small) + al) * (bh * Base(small) + bl) < Base(4 * small)
  {
    var r := Base(small);
    BaseAdd(small, small);
    BaseAdd(2 * small, 2 * small);
    MulMono(ah, r - 1, r);
    MulMono(bh, r - 1, r);
    assert (r - 1) * r == r * r - r;
    MulMono(0, ah, r);
    MulMono(0, bh, r);
    ProductBound(ah * r + al, bh * r + bl, r * r);
  }

  /** A run of 2 * small words and its two halves. */
  lemma HalvesOf(x: array<Word>, o: nat, small: nat)
    requires Run(x, o, 2 * small)
    ensures Value(x[o..o + 2 * small]) == Times(Value(x[o..o + small]), Base(small)) + Value(x[o + small..o + 2 * small])
    ensures Value(x[o..o + small]) < Base(small) && Value(x[o + small..o + 2 * small]) < Base(small)
  {
    var run := x[o..o + 2 * small];
    assert run[..small] == x[o..o + small] && run[small..] == x[o + small..o + 2 * small];
    Halves(run, small);
  }

  /** A number and its two halves. */
  lemma Halves(x: seq<Word>, small: nat)
    requires |x| == 2 * small
    ensures Value(x) == Value(x[..small]) * Base(small) + Value(x[small..])
    ensures Value(x[..small]) < Base(small) && Value(x[small..]) < Base(small)
  {
    assert x == x[..small] + x[small..];
    ValueConcat(x[..small], x[small..]);
    ValueBound(x[..small]);
    ValueBound(x[small..]);
  }

  method MultiplySingle(out: array<Word>, oo: nat, a: array<Word>, ao: nat, b: array<Word>, bo: nat)
    requires Run(out, oo, 2) && Run(a, ao, 1) && Run(b, bo, 1)
    modifies out
    ensures out[..oo] == old(out[..oo]) && out[oo + 2..] == old(out[oo + 2..])
    ensures Value(out[oo..oo + 2]) == Value(old(a[ao..ao + 1])) * Value(old(b[bo..bo + 1]))
  {
    assert a[ao..ao + 1] == [a[ao]] && b[bo..bo + 1] == [b[bo]];
    SingleValue(a[ao]);
    SingleValue(b[bo]);
    MultiplyWords(a[ao], b[bo], out, oo);
  }

  /**
   uintfn_mult_o: the exact product, in twice as many words. The result may overlap
   the numbers multiplied in any way, since it is written last.
   */
  method Multiply(n: nat, out: array<Word>, oo: nat, a: array<Word>, ao: nat, b: array<Word>, bo: nat)
    requires Run(out, oo, 2 * Size(n)) && Run(a, ao, Size(n)) && Run(b, bo, Size(n))
    modifies out
    ensures out[..oo] == old(out[..oo]) && out[oo + 2 * Size(n)..] == old(out[oo + 2 * Size(n)..])
    ensures Value(out[oo..oo + 2 * Size(n)])
         == Value(old(a[ao..ao + Size(n)])) * Value(old(b[bo..bo + Size(n)]))
    decreases n
  {
    if n == 0 {
      MultiplySingle(out, oo, a, ao, b, bo);
    } else {
      var small := Size(n - 1);
      assert Size(n) == 2 * small && 2 * Size(n) == 4 * small;
      hide *;
      MultiplyHalves(n, small, out, oo, a, ao, b, bo);
    }
  }

  method MultiplyHalves(n: nat, small: nat, out: array<Word>, oo: nat, a: array<Word>, ao: nat, b: array<Word>, bo: nat)
    requires 0 < n && small == Size(n - 1)
    requires Run(out, oo, 4 * small) && Run(a, ao, 2 * small) && Run(b, bo, 2 * small)
    modifies out
    ensures out[..oo] == old(out[..oo]) && out[oo + 4 * small..] == old(out[oo + 4 * small..])
    ensures Value(out[oo..oo + 4 * small])
         == Times(Value(old(a[ao..ao + 2 * small])), Value(old(b[bo..bo + 2 * small])))
    decreases n, 2
  {
    ghost var ah, al := Value(a[ao..ao + small]), Value(a[ao + small..ao + 2 * small]);
    ghost var bh, bl := Value(b[bo..bo + small]), Value(b[bo + small..bo + 2 * small]);
    ghost var va, vb := Value(a[ao..ao + 2 * small]), Value(b[bo..bo + 2 * small]);
    HalvesOf(a, ao, small);
    HalvesOf(b, bo, small);
    hide *;
    var outTmp, sum := new Word[4 * small], new Word[4 * small];
    OuterProducts(n, small, outTmp, a, ao, b, bo);
    var negative := MiddleProduct(n, small, sum, a, ao, b, bo);
    Assemble(small, out, oo, outTmp, sum, negative, ah, al, bh, bl, va, vb);
  }

  /** The three products are put together. */
  method Assemble(small: nat, out: array<Word>, oo: nat, outTmp: array<Word>, sum: array<Word>, negative: bool,
                  ghost ah: nat, ghost al: nat, ghost bh: nat, ghost bl: nat, ghost va: nat, ghost vb: nat)
    requires 1 <= small && sum.Length == outTmp.Length == 4 * small && Run(out, oo, 4 * small)
    requires va == Times(ah, Base(small)) + al && vb == Times(bh, Base(small)) + bl
    requires sum != outTmp && out != sum && out != outTmp
    requires ah < Base(small) && al < Base(small) && bh < Base(small) && bl < Base(small)
    requires Value(outTmp[0..2 * small]) == Times(ah, bh) && Value(outTmp[2 * small..4 * small]) == Times(al, bl)
    requires Value(sum[small - 1..3 * small]) == Times(Distance(ah, al), Distance(bh, bl))
    requires negative <==> ((ah <= al) <==> (bh <= bl))
    requires forall i :: 0 <= i < small - 1 || 3 * small <= i < 4 * small ==> sum[i] == 0
    modifies out, sum
    ensures out[..oo] == old(out[..oo]) && out[oo + 4 * small..] == old(out[oo + 4 * small..])
    ensures Value(out[oo..oo + 4 * small]) == Times(va, vb)
  {
    hide *;
    ghost var was := sum[..];
    AddOuterProducts(small, sum, outTmp, negative, ah, al, bh, bl);
    StillZero(was, sum[..], small);
    AddParts(small, out, oo, outTmp, sum, ah, al, bh, bl, va, vb);
  }

  lemma StillZero(was: seq<Word>, sum: seq<Word>, small: nat)
    requires 1 <= small && |was| == |sum| == 4 * small
    requires forall i :: 0 <= i < small - 1 || 3 * small <= i < 4 * small ==> was[i] == 0
    requires sum[..small - 1] == was[..small - 1] && sum[3 * small..] == was[3 * small..]
    ensures forall i :: 0 <= i < small - 1 || 3 * small <= i < 4 * small ==> sum[i] == 0
  {
    forall i | 0 <= i < small - 1 || 3 * small <= i < 4 * small ensures sum[i] == 0 {
      if i < small - 1 {
        assert sum[i] == sum[..small - 1][i] == was[i];
      } else {
        assert sum[i] == sum[3 * small..][i - 3 * small] == was[i];
      }
    }
  }

  lemma SingleValue(w: Word)
    ensures Value([w]) == w
  {
    assert [w][..0] == [];
  }

  /** The products of the upper halves and of the lower halves, side by side. */
  method OuterProducts(n: nat, small: nat, outTmp: array<Word>, a: array<Word>, ao: nat, b: array<Word>, bo: nat)
    requires 0 < n && small == Size(n - 1) && outTmp.Length == 4 * small && outTmp != a && outTmp != b
    requires Run(a, ao, 2 * small) && Run(b, bo, 2 * small)
    modifies outTmp
    ensures Value(outTmp[0..2 * small]) == Times(Value(a[ao..ao + small]), Value(b[bo..bo + small]))
    ensures Value(outTmp[2 * small..4 * small])
         == Times(Value(a[ao + small..ao + 2 * small]), Value(b[bo + small..bo + 2 * small]))
    decreases n, 0
  {
    hide Value, Size;
    Multiply(n - 1, outTmp, 0, a, ao, b, bo);
    ghost var upper := outTmp[..2 * small];
    assert upper == outTmp[0..0 + 2 * small];
    Multiply(n - 1, outTmp, 2 * small, a, ao + small, b, bo + small);
    assert outTmp[0..2 * small] == upper;
    assert 2 * small + 2 * small == 4 * small && ao + small + small == ao + 2 * small && bo + small + small == bo + 2 * small;
  }

  /** The product of the distances, in the middle of zeros, and whether it is to be subtracted. */
  method MiddleProduct(n: nat, small: nat, sum: array<Word>, a: array<Word>, ao: nat, b: array<Word>, bo: nat)
    returns (negative: bool)
    requires 0 < n && small == Size(n - 1) && sum.Length == 4 * small && sum != a && sum != b
    requires Run(a, ao, 2 * small) && Run(b, bo, 2 * small)
    modifies sum
    ensures
      var ah, al := Value(a[ao..ao + small]), Value(a[ao + small..ao + 2 * small]);
      var bh, bl := Value(b[bo..bo + small]), Value(b[bo + small..bo + 2 * small]);
      && Value(sum[small - 1..3 * small]) == Times(Distance(ah, al), Distance(bh, bl))
      && (negative <==> ((ah <= al) <==> (bh <= bl)))
      && forall i :: 0 <= i < small - 1 || 3 * small <= i < 4 * small ==> sum[i] == 0
    decreases n, 1
  {
    hide Value, Distance, Size, Times;
    var sign := -1;
    var diff1, diff2 := new Word[small], new Word[small];
    assert ao + small + small == ao + 2 * small && bo + small + small == bo + 2 * small;
    var notNegative1 := AbsDifference(small, diff1, a, ao);
    sign := if notNegative1 then sign else -sign;
    var notNegative2 := AbsDifference(small, diff2, b, bo);
    sign := if notNegative2 then sign else -sign;
    MultiplyIntoMiddle(n, small, sum, diff1, diff2);
    negative := sign == -1;
  }

  method MultiplyIntoMiddle(n: nat, small: nat, sum: array<Word>, diff1: array<Word>, diff2: array<Word>)
    requires 0 < n && small == Size(n - 1) && sum.Length == 4 * small && sum != diff1 && sum != diff2
    requires Run(diff1, 0, small) && Run(diff2, 0, small)
    modifies sum
    ensures Value(sum[small - 1..3 * small]) == Times(Value(diff1[0..small]), Value(diff2[0..small]))
    ensures forall i :: 0 <= i < small - 1 || 3 * small <= i < 4 * small ==> sum[i] == 0
    decreases n, 0
  {
    Clear(sum);
    ghost var zeros := sum[..];
    hide Value, Size;
    Multiply(n - 1, sum, small, diff1, 0, diff2, 0);
    OnlyMiddle(zeros, sum[..], small);
    ValueCons(0, sum[..][small..3 * small]);
    assert small + 2 * small == 3 * small && sum[..][small..3 * small] == sum[small..small + 2 * small];
    assert sum[..][small - 1..3 * small] == sum[small - 1..3 * small];
  }

  lemma OnlyMiddle(zeros: seq<Word>, sum: seq<Word>, small: nat)
    requires |zeros| == |sum| == 4 * small && 1 <= small && forall i :: 0 <= i < |zeros| ==> zeros[i] == 0
    requires sum[..small] == zeros[..small] && sum[3 * small..] == zeros[3 * small..]
    ensures forall i :: 0 <= i < small || 3 * small <= i < 4 * small ==> sum[i] == 0
    ensures sum[small - 1..3 * small] == [0] + sum[small..3 * small]
  {
    forall i | 0 <= i < small || 3 * small <= i < 4 * small ensures sum[i] == 0 {
      if i < small {
        assert sum[i] == sum[..small][i] == zeros[i];
      } else {
        assert sum[i] == sum[3 * small..][i - 3 * small] == zeros[i];
      }
    }
  }
}
