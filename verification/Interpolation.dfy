/**
 Lagrange interpolation at zero over the integers modulo q, as
 Decryption_Trustee_compute_fragments does it: trustee l holds the value of a
 polynomial at l + 1, and the weights come from product_1, product_2 and
 div_mod_q.
 */
module Interpolation {
  import opened Arithmetic
  import opened Primes
  import opened Group

  /** Trustee indices that may stand together in one interpolation. */
  ghost predicate Points(G: Group, arr: seq<nat>) {
    && G.Valid()
    && (forall i :: 0 <= i < |arr| ==> arr[i] + 1 < G.q)
    && (forall i, j :: 0 <= i < j < |arr| ==> arr[i] != arr[j])
  }

  // ---- the two products ---------------------------------------------------------

  /** The product of j + 1 over the listed trustees j other than ai. */
  function Numerator(ai: nat, arr: seq<nat>): int {
    if arr == [] then 1
    else if arr[|arr| - 1] == ai then Numerator(ai, arr[..|arr| - 1])
    else Numerator(ai, arr[..|arr| - 1]) * (arr[|arr| - 1] + 1)
  }

  /** The product of j - ai over the listed trustees j other than ai. */
  function Denominator(ai: nat, arr: seq<nat>): int {
    if arr == [] then 1
    else if arr[|arr| - 1] == ai then Denominator(ai, arr[..|arr| - 1])
    else Denominator(ai, arr[..|arr| - 1]) * (arr[|arr| - 1] - ai)
  }

  method Product1(G: Group, ai: nat, arr: seq<nat>) returns (product: nat)
    requires G.Positive() && 1 < G.q
    ensures product == Numerator(ai, arr) % G.q
  {
    product := 1;
    CongMod(1, G.q);
    for i := 0 to |arr|
      invariant product == Numerator(ai, arr[..i]) % G.q
    {
      assert arr[..i + 1][..i] == arr[..i];
      if ai != arr[i] {
        var tmp := arr[i] + 1;
        CongMod(Numerator(ai, arr[..i]), G.q);
        CongMul(product, Numerator(ai, arr[..i]), tmp, tmp, G.q);
        product := G.MulModQ(product, tmp);
      }
    }
    assert arr[..|arr|] == arr;
  }

  method Product2(G: Group, ai: nat, arr: seq<nat>) returns (product: nat)
    requires G.Positive() && 1 < G.q
    ensures product == Denominator(ai, arr) % G.q
  {
    product := 1;
    CongMod(1, G.q);
    for i := 0 to |arr|
      invariant product == Denominator(ai, arr[..i]) % G.q
    {
      assert arr[..i + 1][..i] == arr[..i];
      if ai != arr[i] {
        var tmp := G.SubModQ(arr[i] + 1, ai + 1);
        CongMod(Denominator(ai, arr[..i]), G.q);
        CongMod(arr[i] - ai, G.q);
        CongMul(product, Denominator(ai, arr[..i]), tmp, arr[i] - ai, G.q);
        product := G.MulModQ(product, tmp);
      }
    }
    assert arr[..|arr|] == arr;
  }

  /** The coefficient a trustee computes for itself. */
  function Weight(G: Group, arr: seq<nat>, l: nat): nat
    requires G.Positive()
  {
    G.DivModQ(Numerator(l, arr) % G.q, Denominator(l, arr) % G.q)
  }

  lemma {:induction false} DenominatorInvertible(G: Group, arr: seq<nat>, l: nat)
    requires Points(G, arr) && l + 1 < G.q
    ensures !Divides(G.q, Denominator(l, arr))
  {
    if arr == [] {
      PrimeNotDividesSmall(G.q, 1);
    } else {
      var s := arr[|arr| - 1];
      DenominatorInvertible(G, arr[..|arr| - 1], l);
      if s != l {
        PrimeNotDividesSmall(G.q, s - l);
        if Divides(G.q, Denominator(l, arr)) {
          PrimeDividesProduct(G.q, Denominator(l, arr[..|arr| - 1]), s - l);
        }
      }
    }
  }

  /** What makes a weight: it is numerator over denominator modulo q. */
  lemma WeightEquation(G: Group, arr: seq<nat>, l: nat)
    requires Points(G, arr) && l + 1 < G.q
    ensures Cong(Weight(G, arr, l) * Denominator(l, arr), Numerator(l, arr), G.q)
  {
    DenominatorInvertible(G, arr, l);
    QuotientEquation(G, Numerator(l, arr), Denominator(l, arr));
  }

  lemma QuotientEquation(G: Group, n: int, d: int)
    requires G.Valid() && !Divides(G.q, d)
    ensures Cong(G.DivModQ(n % G.q, d % G.q) * d, n, G.q)
  {
    var q, n', d' := G.q, n % G.q, d % G.q;
    CongMod(n, q);
    CongMod(d, q);
    InvertPrime(d', q);
    var i := Invert(d', q);
    CongMod(n' * i, q);
    CongMul(G.DivModQ(n', d'), n' * i, d, d', q);
    MulAssoc(n', i, d');
    assert i * d' == d' * i;
    CongMul(n', n, d' * i, 1, q);
  }

  // ---- removing one point -----------------------------------------------------------

  lemma {:induction false} ProductsPrepend(l: nat, t: nat, arr: seq<nat>)
    requires t != l
    ensures Numerator(l, [t] + arr) == Numerator(l, arr) * (t + 1)
    ensures Denominator(l, [t] + arr) == Denominator(l, arr) * (t - l)
  {
    if arr == [] {
      assert ([t] + arr)[..0] == [];
    } else {
      var s, rest := arr[|arr| - 1], arr[..|arr| - 1];
      assert ([t] + arr)[..|arr|] == [t] + rest;
      ProductsPrepend(l, t, rest);
      var n, d := Numerator(l, rest), Denominator(l, rest);
      assert Numerator(l, arr) == if s == l then n else n * (s + 1);
      assert Denominator(l, arr) == if s == l then d else d * (s - l);
      assert ([t] + arr)[|arr|] == s;
      MulExchange(n, t + 1, s + 1);
      MulExchange(d, t - l, s - l);
    }
  }

  /** How the weight of l changes when the point s joins, at either end of the list. */
  lemma WeightRemove(G: Group, arr: seq<nat>, rest: seq<nat>, s: nat, l: nat)
    requires Points(G, arr) && s != l && l + 1 < G.q
    requires arr == rest + [s] || arr == [s] + rest
    ensures Points(G, rest) && s + 1 < G.q
    ensures Cong(Weight(G, arr, l) * (s - l), Weight(G, rest, l) * (s + 1), G.q)
  {
    RestIsPoints(G, arr, rest, s);
    ProductsRemove(arr, rest, s, l);
    WeightEquation(G, arr, l);
    WeightEquation(G, rest, l);
    DenominatorInvertible(G, rest, l);
    hide Weight, Cong, Numerator, Denominator;
    WeightsAgree(G, Weight(G, arr, l), Weight(G, rest, l), Numerator(l, rest), Denominator(l, rest), s + 1, s - l);
  }

  lemma RestIsPoints(G: Group, arr: seq<nat>, rest: seq<nat>, s: nat)
    requires Points(G, arr) && (arr == rest + [s] || arr == [s] + rest)
    ensures Points(G, rest) && s + 1 < G.q
  {
    if arr == rest + [s] {
      assert arr[|arr| - 1] == s;
      assert forall i :: 0 <= i < |rest| ==> rest[i] == arr[i];
    } else {
      assert arr[0] == s;
      assert forall i :: 0 <= i < |rest| ==> rest[i] == arr[i + 1];
    }
  }

  lemma ProductsRemove(arr: seq<nat>, rest: seq<nat>, s: nat, l: nat)
    requires s != l && (arr == rest + [s] || arr == [s] + rest)
    ensures Numerator(l, arr) == Numerator(l, rest) * (s + 1)
    ensures Denominator(l, arr) == Denominator(l, rest) * (s - l)
  {
    if arr == rest + [s] {
      assert arr[..|arr| - 1] == rest;
    } else {
      ProductsPrepend(l, s, rest);
    }
  }

  lemma WeightsAgree(G: Group, w: int, w': int, n: int, d: int, x: int, y: int)
    requires G.Valid() && !Divides(G.q, d)
    requires Cong(w * (d * y), n * x, G.q) && Cong(w' * d, n, G.q)
    ensures Cong(w * y, w' * x, G.q)
  {
    CongMul(w' * d, n, x, x, G.q);
    MulExchange(w, d, y);
    MulAssoc(w, d, y);
    MulExchange(w', d, x);
    CongCancel(w * y, w' * x, d, G.q);
  }

  // ---- weighted sums of powers ------------------------------------------------------

  /** The sum over l in pts of weight(l) * (l + 1)^j. */
  function Moment(G: Group, arr: seq<nat>, pts: seq<nat>, j: nat): int
    requires G.Positive()
  {
    if pts == [] then 0
    else Weight(G, arr, pts[0]) * Pow(pts[0] + 1, j) + Moment(G, arr, pts[1..], j)
  }

  lemma {:induction false} MomentAppend(G: Group, arr: seq<nat>, pts: seq<nat>, s: nat, j: nat)
    requires G.Positive()
    ensures Moment(G, arr, pts + [s], j) == Moment(G, arr, pts, j) + Weight(G, arr, s) * Pow(s + 1, j)
  {
    if pts == [] {
      assert ([] + [s])[1..] == [];
    } else {
      assert (pts + [s])[1..] == pts[1..] + [s];
      MomentAppend(G, arr, pts[1..], s, j);
    }
  }

  /** A point that is in both shorter lists: the two recurrences. */
  lemma MiddleTerm(G: Group, arr: seq<nat>, t: nat, mid: seq<nat>, s: nat, i: nat)
    requires Points(G, arr) && arr == [t] + mid + [s] && i < |mid|
    ensures Cong(Weight(G, arr, mid[i]) * (t - mid[i]), Weight(G, mid + [s], mid[i]) * (t + 1), G.q)
    ensures Cong(Weight(G, arr, mid[i]) * (s - mid[i]), Weight(G, [t] + mid, mid[i]) * (s + 1), G.q)
  {
    assert arr == [t] + (mid + [s]) && arr == ([t] + mid) + [s];
    assert arr[0] == t && arr[i + 1] == mid[i] && arr[|mid| + 1] == s;
    hide Weight, Cong;
    WeightRemove(G, arr, mid + [s], t, mid[i]);
    WeightRemove(G, arr, [t] + mid, s, mid[i]);
  }

  /** The recurrences, summed over the middle points from the i-th. */
  lemma {:induction false} MiddleSum(G: Group, arr: seq<nat>, t: nat, mid: seq<nat>, s: nat, i: nat)
    requires Points(G, arr) && arr == [t] + mid + [s] && i <= |mid|
    ensures Cong((t - s) * Moment(G, arr, mid[i..], 0),
                 (t + 1) * Moment(G, mid + [s], mid[i..], 0) - (s + 1) * Moment(G, [t] + mid, mid[i..], 0), G.q)
    decreases |mid| - i
  {
    assert G.Positive();
    hide Weight, Pow, Points;
    if i < |mid| {
      hide Cong;
      var l, a, b := mid[i], mid + [s], [t] + mid;
      MiddleSum(G, arr, t, mid, s, i + 1);
      MiddleTerm(G, arr, t, mid, s, i);
      assert mid[i..][0] == l && mid[i..][1..] == mid[i + 1..];
      PowZero(l + 1);
      MiddleAlgebra(G.q, t, s, l, Weight(G, arr, l), Weight(G, a, l), Weight(G, b, l),
                    Moment(G, arr, mid[i + 1..], 0), Moment(G, a, mid[i + 1..], 0), Moment(G, b, mid[i + 1..], 0));
    }
  }

  lemma PowZero(b: int)
    ensures Pow(b, 0) == 1
  {}

  lemma MiddleAlgebra(q: int, t: int, s: int, l: int, w: int, wa: int, wb: int, m: int, ma: int, mb: int)
    requires 0 < q
    requires Cong(w * (t - l), wa * (t + 1), q) && Cong(w * (s - l), wb * (s + 1), q)
    requires Cong((t - s) * m, (t + 1) * ma - (s + 1) * mb, q)
    ensures Cong((t - s) * (w + m), (t + 1) * (wa + ma) - (s + 1) * (wb + mb), q)
  {
    CongAdd(w * (t - l), wa * (t + 1), w * (s - l), wb * (s + 1), q);
    MulDistrib(w, t - l, s - l);
    CongAdd((t - s) * w, wa * (t + 1) - wb * (s + 1), (t - s) * m, (t + 1) * ma - (s + 1) * mb, q);
    MulDistrib(t - s, w, m);
    MulDistrib(t + 1, wa, ma);
    MulDistrib(s + 1, wb, mb);
  }

  lemma SingleWeight(G: Group, l: nat)
    requires Points(G, [l])
    ensures Cong(Moment(G, [l], [l], 0), 1, G.q)
  {
    assert [l][0] == l && [l][..0] == [];
    WeightEquation(G, [l], l);
    hide Weight, Cong;
    assert Numerator(l, [l]) == Numerator(l, []) == 1;
    assert Denominator(l, [l]) == Denominator(l, []) == 1;
    assert [l][1..] == [];
    assert Moment(G, [l], [l], 0) == Weight(G, [l], l) * Pow(l + 1, 0) + Moment(G, [l], [], 0);
    PowZero(l + 1);
  }

  /** The weights of any non-empty list of points add up to one. */
  lemma {:induction false} WeightsSumToOne(G: Group, arr: seq<nat>)
    requires Points(G, arr) && arr != []
    ensures Cong(Moment(G, arr, arr, 0), 1, G.q)
    decreases |arr|
  {
    hide Weight, Cong, Pow, Moment;
    if |arr| == 1 {
      assert arr == [arr[0]];
      SingleWeight(G, arr[0]);
    } else {
      var t, s, mid := arr[0], arr[|arr| - 1], arr[1..|arr| - 1];
      var a, b := mid + [s], [t] + mid;
      assert arr == [t] + mid + [s] && arr == [t] + a && arr == b + [s];
      MiddleSum(G, arr, t, mid, s, 0);
      assert mid[0..] == mid;
      assert arr[0] == t && arr[|arr| - 1] == s;
      WeightRemove(G, arr, a, t, s);
      WeightRemove(G, arr, b, s, t);
      WeightsSumToOne(G, a);
      WeightsSumToOne(G, b);
      MomentSplit(G, arr, t, mid, s);
      MomentEnds(G, a, b, t, mid, s);
      var m, ma, mb := Moment(G, arr, mid, 0), Moment(G, a, mid, 0), Moment(G, b, mid, 0);
      var wt, ws, was, wbt := Weight(G, arr, t), Weight(G, arr, s), Weight(G, a, s), Weight(G, b, t);
      EndsCombine(G.q, t, s, wt, ws, m, was, ma, wbt, mb);
      SumCancels(G, t, s, wt + m + ws, ma + was, wbt + mb);
    }
  }

  lemma MomentEnds(G: Group, a: seq<nat>, b: seq<nat>, t: nat, mid: seq<nat>, s: nat)
    requires G.Positive() && a == mid + [s] && b == [t] + mid
    ensures Moment(G, a, a, 0) == Moment(G, a, mid, 0) + Weight(G, a, s)
    ensures Moment(G, b, b, 0) == Weight(G, b, t) + Moment(G, b, mid, 0)
  {
    hide Weight;
    MomentAppend(G, a, mid, s, 0);
    assert b[1..] == mid && b[0] == t;
  }

  lemma MomentSplit(G: Group, arr: seq<nat>, t: nat, mid: seq<nat>, s: nat)
    requires G.Positive()
    ensures Moment(G, arr, [t] + mid + [s], 0) == Weight(G, arr, t) + Moment(G, arr, mid, 0) + Weight(G, arr, s)
  {
    hide Weight;
    MomentAppend(G, arr, [t] + mid, s, 0);
    assert ([t] + mid)[1..] == mid;
  }

  lemma EndsCombine(q: int, t: int, s: int, wt: int, ws: int, m: int, was: int, ma: int, wbt: int, mb: int)
    requires 0 < q
    requires Cong(ws * (t - s), was * (t + 1), q) && Cong(wt * (s - t), wbt * (s + 1), q)
    requires Cong((t - s) * m, (t + 1) * ma - (s + 1) * mb, q)
    ensures Cong((t - s) * (wt + m + ws), (t + 1) * (ma + was) - (s + 1) * (wbt + mb), q)
  {
    CongAdd(ws * (t - s), was * (t + 1), wt * (s - t), wbt * (s + 1), q);
    CongAdd(ws * (t - s) - wt * (s - t), was * (t + 1) - wbt * (s + 1),
            (t - s) * m, (t + 1) * ma - (s + 1) * mb, q);
    assert ws * (t - s) - wt * (s - t) + (t - s) * m == (t - s) * (wt + m + ws);
    assert was * (t + 1) - wbt * (s + 1) + ((t + 1) * ma - (s + 1) * mb)
        == (t + 1) * (ma + was) - (s + 1) * (wbt + mb);
  }

  lemma SumCancels(G: Group, t: nat, s: nat, total: int, sa: int, sb: int)
    requires G.Valid() && t != s && t < G.q && s < G.q
    requires Cong((t - s) * total, (t + 1) * sa - (s + 1) * sb, G.q)
    requires Cong(sa, 1, G.q) && Cong(sb, 1, G.q)
    ensures Cong(total, 1, G.q)
  {
    var q := G.q;
    PrimeNotDividesSmall(q, t - s);
    hide Cong, Divides, IsPrime;
    CongScale(t + 1, sa, 1, q);
    CongScale(s + 1, sb, 1, q);
    CongAdd((t + 1) * sa, t + 1, (s + 1) * sb, s + 1, q);
    assert (t + 1) * 1 - (s + 1) * 1 == 1 * (t - s);
    assert total * (t - s) == (t - s) * total;
    CongTrans(total * (t - s), (t + 1) * sa - (s + 1) * sb, 1 * (t - s), q);
    CongCancel(total, 1, t - s, q);
  }

  /** Raising the power by one: the recurrence that removes the last point. */
  lemma {:induction false} MomentStep(G: Group, arr: seq<nat>, b: seq<nat>, s: nat, pts: seq<nat>, j: nat)
    requires Points(G, arr) && arr == b + [s]
    requires forall l :: l in pts ==> l in b
    ensures Points(G, b)
    ensures Cong((s + 1) * Moment(G, arr, pts, j) - Moment(G, arr, pts, j + 1), (s + 1) * Moment(G, b, pts, j), G.q)
  {
    assert forall i :: 0 <= i < |b| ==> b[i] == arr[i];
    if pts != [] {
      var l, q := pts[0], G.q;
      assert l in b;
      var i :| 0 <= i < |b| && b[i] == l;
      assert arr[i] == l && arr[|b|] == s;
      MomentStep(G, arr, b, s, pts[1..], j);
      WeightRemove(G, arr, b, s, l);
      var w, wb, y := Weight(G, arr, l), Weight(G, b, l), Pow(l + 1, j);
      CongMul(w * (s - l), wb * (s + 1), y, y, q);
      var m, m', mb := Moment(G, arr, pts[1..], j), Moment(G, arr, pts[1..], j + 1), Moment(G, b, pts[1..], j);
      assert Pow(l + 1, j + 1) == (l + 1) * y;
      assert Moment(G, arr, pts, j) == w * y + m;
      assert Moment(G, arr, pts, j + 1) == w * ((l + 1) * y) + m';
      assert Moment(G, b, pts, j) == wb * y + mb;
      CongAdd(w * (s - l) * y, wb * (s + 1) * y, (s + 1) * m - m', (s + 1) * mb, q);
      MomentAlgebra(s, l, w, wb, y, m, m', mb);
    }
  }

  lemma MomentAlgebra(s: int, l: int, w: int, wb: int, y: int, m: int, m': int, mb: int)
    ensures w * (s - l) * y + ((s + 1) * m - m') == (s + 1) * (w * y + m) - (w * ((l + 1) * y) + m')
    ensures wb * (s + 1) * y + (s + 1) * mb == (s + 1) * (wb * y + mb)
  {
    var z := w * y;
    assert w * (s - l) * y == (s - l) * z == (s + 1) * z - (l + 1) * z;
    assert w * ((l + 1) * y) == (l + 1) * z;
    MulDistrib(s + 1, z, m);
    var zb := wb * y;
    assert wb * (s + 1) * y == (s + 1) * zb;
    MulDistrib(s + 1, zb, mb);
  }

  /** The recurrence for all of the points: the last one drops out. */
  lemma MomentRecurrence(G: Group, arr: seq<nat>, b: seq<nat>, s: nat, j: nat)
    requires Points(G, arr) && arr == b + [s]
    ensures Points(G, b)
    ensures Cong((s + 1) * Moment(G, arr, arr, j) - Moment(G, arr, arr, j + 1), (s + 1) * Moment(G, b, b, j), G.q)
  {
    hide Weight;
    MomentStep(G, arr, b, s, b, j);
    MomentAppend(G, arr, b, s, j);
    MomentAppend(G, arr, b, s, j + 1);
    assert Pow(s + 1, j + 1) == (s + 1) * Pow(s + 1, j);
    LastPointDrops(s + 1, Moment(G, arr, b, j), Moment(G, arr, b, j + 1), Weight(G, arr, s), Pow(s + 1, j));
  }

  lemma LastPointDrops(x: int, m: int, m': int, w: int, y: int)
    ensures x * (m + w * y) - (m' + w * (x * y)) == x * m - m'
  {
    MulDistrib(x, m, w * y);
    assert x * (w * y) == w * (x * y);
  }

  /** Every higher power below the number of points is summed to zero. */
  lemma {:induction false} MomentsVanish(G: Group, arr: seq<nat>, j: nat)
    requires Points(G, arr) && 1 <= j < |arr|
    ensures Cong(Moment(G, arr, arr, j), 0, G.q)
    decreases |arr|, j
  {
    var s, b := arr[|arr| - 1], arr[..|arr| - 1];
    assert arr == b + [s];
    assert G.Positive() && Points(G, b) && |b| == |arr| - 1;
    hide *;
    if j == 1 {
      WeightsSumToOne(G, arr);
      WeightsSumToOne(G, b);
      NextMoment(G, arr, b, s, 0, 1);
    } else {
      MomentsVanish(G, arr, j - 1);
      MomentsVanish(G, b, j - 1);
      NextMoment(G, arr, b, s, j - 1, 0);
    }
  }

  /** If a moment is the same with and without a point, the next one vanishes. */
  lemma NextMoment(G: Group, arr: seq<nat>, b: seq<nat>, s: nat, j: nat, v: int)
    requires Points(G, arr) && arr == b + [s]
    requires Cong(Moment(G, arr, arr, j), v, G.q) && Cong(Moment(G, b, b, j), v, G.q)
    ensures Cong(Moment(G, arr, arr, j + 1), 0, G.q)
  {
    assert G.q > 0;
    hide Weight, Moment, Cong, Points;
    MomentRecurrence(G, arr, b, s, j);
    RecurrenceSolved(G.q, s + 1, Moment(G, arr, arr, j), Moment(G, arr, arr, j + 1), Moment(G, b, b, j), v);
  }

  lemma RecurrenceSolved(q: int, x: int, m: int, m': int, mb: int, v: int)
    requires 0 < q && Cong(m, v, q) && Cong(mb, v, q) && Cong(x * m - m', x * mb, q)
    ensures Cong(m', 0, q)
  {
    CongScale(x, m, v, q);
    CongScale(x, mb, v, q);
    CongAdd(x * m, x * mb, x * m - m', x * mb, q);
  }

  // ---- polynomials --------------------------------------------------------------------

  /** The first k terms of the polynomial with these coefficients, at x. */
  function PolyTerms(coefficients: seq<int>, x: int, k: nat): int
    requires k <= |coefficients|
  {
    if k == 0 then 0 else PolyTerms(coefficients, x, k - 1) + coefficients[k - 1] * Pow(x, k - 1)
  }

  /** The value of the polynomial at x, over the integers. */
  function Poly(coefficients: seq<int>, x: int): int {
    PolyTerms(coefficients, x, |coefficients|)
  }

  /** The sum over l in pts of weight(l) * value(l). */
  function Combine(G: Group, arr: seq<nat>, pts: seq<nat>, value: nat -> int): int
    requires G.Positive()
  {
    if pts == [] then 0 else Weight(G, arr, pts[0]) * value(pts[0]) + Combine(G, arr, pts[1..], value)
  }

  lemma {:induction false} CombineTerms(G: Group, arr: seq<nat>, pts: seq<nat>, c: seq<int>, k: nat)
    requires G.Positive() && k < |c|
    ensures Combine(G, arr, pts, l => PolyTerms(c, l + 1, k + 1))
         == Combine(G, arr, pts, l => PolyTerms(c, l + 1, k)) + c[k] * Moment(G, arr, pts, k)
  {
    if pts != [] {
      hide Weight;
      CombineTerms(G, arr, pts[1..], c, k);
      var w, v, y := Weight(G, arr, pts[0]), PolyTerms(c, pts[0] + 1, k), Pow(pts[0] + 1, k);
      assert PolyTerms(c, pts[0] + 1, k + 1) == v + c[k] * y;
      TermAlgebra(w, v, c[k], y, Combine(G, arr, pts[1..], l => PolyTerms(c, l + 1, k)), Moment(G, arr, pts[1..], k));
    }
  }

  lemma TermAlgebra(w: int, v: int, c: int, y: int, s: int, m: int)
    ensures w * (v + c * y) + (s + c * m) == w * v + s + c * (w * y + m)
  {
    MulDistrib(w, v, c * y);
    assert w * (c * y) == c * (w * y);
    MulDistrib(c, w * y, m);
  }

  lemma {:induction false} CombineZero(G: Group, arr: seq<nat>, pts: seq<nat>, c: seq<int>)
    requires G.Positive()
    ensures Combine(G, arr, pts, l => PolyTerms(c, l + 1, 0)) == 0
  {
    if pts != [] { CombineZero(G, arr, pts[1..], c); }
  }

  lemma {:induction false} CombinePrefix(G: Group, arr: seq<nat>, c: seq<int>, k: nat)
    requires Points(G, arr) && 1 <= k <= |c| && k <= |arr|
    ensures Cong(Combine(G, arr, arr, l => PolyTerms(c, l + 1, k)), c[0], G.q)
  {
    CombineTerms(G, arr, arr, c, k - 1);
    var s, m := Combine(G, arr, arr, l => PolyTerms(c, l + 1, k - 1)), Moment(G, arr, arr, k - 1);
    if k == 1 {
      CombineZero(G, arr, arr, c);
      WeightsSumToOne(G, arr);
      CongMul(c[0], c[0], m, 1, G.q);
    } else {
      CombinePrefix(G, arr, c, k - 1);
      MomentsVanish(G, arr, k - 1);
      CongMul(c[k - 1], c[k - 1], m, 0, G.q);
      CongAdd(s, c[0], c[k - 1] * m, 0, G.q);
    }
  }

  /** Values that agree modulo q on the points give sums that agree modulo q. */
  lemma {:induction false} CombineSame(G: Group, arr: seq<nat>, pts: seq<nat>, f: nat -> int, h: nat -> int)
    requires G.Positive() && forall l :: l in pts ==> Cong(f(l), h(l), G.q)
    ensures Cong(Combine(G, arr, pts, f), Combine(G, arr, pts, h), G.q)
  {
    if pts != [] {
      var l := pts[0];
      CombineSame(G, arr, pts[1..], f, h);
      CongMul(Weight(G, arr, l), Weight(G, arr, l), f(l), h(l), G.q);
      CongAdd(Weight(G, arr, l) * f(l), Weight(G, arr, l) * h(l),
              Combine(G, arr, pts[1..], f), Combine(G, arr, pts[1..], h), G.q);
    }
  }

  /**
   Reconstruction: values of a polynomial, modulo q, at as many points as it has
   coefficients or more, each weighted as the code weighs it, give back the
   constant coefficient.
   */
  lemma Reconstruction(G: Group, arr: seq<nat>, c: seq<int>, value: nat -> int)
    requires Points(G, arr) && 1 <= |c| <= |arr|
    requires forall l :: l in arr ==> Cong(value(l), Poly(c, l + 1), G.q)
    ensures Cong(Combine(G, arr, arr, value), c[0], G.q)
  {
    CombinePrefix(G, arr, c, |c|);
    CombineSame(G, arr, arr, value, l => PolyTerms(c, l + 1, |c|));
  }
}
