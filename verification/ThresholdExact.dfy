/**
 The code asks only the first threshold announced trustees for fragments but
 weighs them over all announced ones. That is right for every choice of keys
 exactly when those are the same trustees, or when nobody is missing.
 */
module ThresholdExact {
  import opened Arithmetic
  import opened Primes
  import opened Group
  import opened Interpolation
  import opened DecryptionMessages
  import opened DecryptionCoordinator
  import opened TallyTheorem
  import opened Threshold

  // ---- a polynomial with given roots ------------------------------------------------------

  /** The coefficients of (x - r) times the polynomial. */
  function MulLinear(c: seq<int>, r: int): seq<int> {
    seq(|c| + 1, i requires 0 <= i <= |c| =>
      (if i == 0 then 0 else c[i - 1]) - (if i == |c| then 0 else r * c[i]))
  }

  lemma {:induction false} MulLinearTerms(c: seq<int>, r: int, x: int, k: nat)
    requires 1 <= k <= |c|
    ensures PolyTerms(MulLinear(c, r), x, k) == x * PolyTerms(c, x, k - 1) - r * PolyTerms(c, x, k)
  {
    var m := MulLinear(c, r);
    var y := Pow(x, k - 1);
    if k == 1 {
      PolyFirst(m, x);
      PolyFirst(c, x);
      assert m[0] == 0 - r * c[0];
    } else {
      MulLinearTerms(c, r, x, k - 1);
      assert m[k - 1] == c[k - 2] - r * c[k - 1];
      assert Pow(x, k - 1) == x * Pow(x, k - 2);
      LinearAlgebra(x, r, PolyTerms(c, x, k - 2), PolyTerms(c, x, k - 1), c[k - 2], c[k - 1], Pow(x, k - 2), y);
    }
  }

  lemma PolyFirst(c: seq<int>, x: int)
    requires 1 <= |c|
    ensures PolyTerms(c, x, 1) == c[0] && PolyTerms(c, x, 0) == 0
  {
    assert PolyTerms(c, x, 1) == PolyTerms(c, x, 0) + c[0] * Pow(x, 0);
  }

  lemma LinearAlgebra(x: int, r: int, p: int, p': int, a: int, b: int, z: int, y: int)
    requires p' == p + a * z && y == x * z
    ensures x * p - r * p' + (a - r * b) * y == x * p' - r * (p' + b * y)
  {
    assert x * p' == x * p + x * (a * z) == x * p + a * y;
    assert (a - r * b) * y == a * y - r * (b * y);
    MulDistrib(r, p', b * y);
  }

  lemma MulLinearValue(c: seq<int>, r: int, x: int)
    requires 1 <= |c|
    ensures Poly(MulLinear(c, r), x) == (x - r) * Poly(c, x)
  {
    var k := |c|;
    MulLinearTerms(c, r, x, k);
    var m := MulLinear(c, r);
    assert m[k] == c[k - 1];
    assert Pow(x, k) == x * Pow(x, k - 1);
    var p, a, z := PolyTerms(c, x, k - 1), c[k - 1], Pow(x, k - 1);
    assert Poly(m, x) == x * p - r * Poly(c, x) + a * (x * z);
    assert Poly(c, x) == p + a * z;
    LastTerm(x, r, p, a, z);
  }

  lemma LastTerm(x: int, r: int, p: int, a: int, z: int)
    ensures x * p - r * (p + a * z) + a * (x * z) == (x - r) * (p + a * z)
  {
    MulDistrib(x, p, a * z);
    assert x * (a * z) == a * (x * z);
    assert (x - r) * (p + a * z) == x * (p + a * z) - r * (p + a * z);
  }

  /** The polynomial that vanishes at t + 1 for the listed t. */
  function RootPoly(pts: seq<nat>): (r: seq<int>)
    ensures |r| == |pts| + 1
  {
    if pts == [] then [1] else MulLinear(RootPoly(pts[..|pts| - 1]), pts[|pts| - 1] + 1)
  }

  /** The product of l - t over the listed t. */
  function Differences(l: int, pts: seq<nat>): int {
    if pts == [] then 1 else (l - pts[|pts| - 1]) * Differences(l, pts[..|pts| - 1])
  }

  lemma {:induction false} RootPolyValue(pts: seq<nat>, l: nat)
    ensures Poly(RootPoly(pts), l + 1) == Differences(l, pts)
  {
    if pts == [] {
      PolyFirst([1], l + 1);
    } else {
      RootPolyValue(pts[..|pts| - 1], l);
      MulLinearValue(RootPoly(pts[..|pts| - 1]), pts[|pts| - 1] + 1, l + 1);
    }
  }

  lemma {:induction false} DifferencesVanish(l: nat, pts: seq<nat>)
    requires l in pts
    ensures Differences(l, pts) == 0
  {
    var n := |pts| - 1;
    if pts[n] != l {
      assert pts == pts[..n] + [pts[n]];
      DifferencesVanish(l, pts[..n]);
      hide Differences;
      var d := Differences(l, pts[..n]);
      assert (l - pts[n]) * d == 0;
    }
  }

  lemma {:induction false} DifferencesInvertible(G: Group, l: nat, pts: seq<nat>)
    requires G.Valid() && l < G.q && forall i :: 0 <= i < |pts| ==> pts[i] < G.q && pts[i] != l
    ensures !Divides(G.q, Differences(l, pts))
  {
    if pts == [] {
      PrimeNotDividesSmall(G.q, 1);
    } else {
      var n := |pts| - 1;
      DifferencesInvertible(G, l, pts[..n]);
      PrimeNotDividesSmall(G.q, l - pts[n]);
      if Divides(G.q, Differences(l, pts)) {
        PrimeDividesProduct(G.q, l - pts[n], Differences(l, pts[..n]));
      }
    }
  }

  // ---- a witness against the code: the weights of the first trustee --------------------------

  /** Only the first point counts when the values at the others vanish. */
  lemma {:induction false} CombineVanishing(G: Group, arr: seq<nat>, pts: seq<nat>, value: nat -> int)
    requires G.Positive() && forall l :: l in pts ==> value(l) == 0
    ensures Combine(G, arr, pts, value) == 0
  {
    hide Weight;
    if pts != [] {
      CombineVanishing(G, arr, pts[1..], value);
      var w := Weight(G, arr, pts[0]);
      assert w * 0 == 0;
    }
  }

  lemma CombineFirst(G: Group, arr: seq<nat>, pts: seq<nat>, value: nat -> int)
    requires G.Positive() && pts != [] && forall l :: l in pts[1..] ==> value(l) == 0
    ensures Combine(G, arr, pts, value) == Weight(G, arr, pts[0]) * value(pts[0])
  {
    CombineVanishing(G, arr, pts[1..], value);
  }

  /** The product of j + 1, and of j - l, over the points from the k-th on. */
  function Above(S: seq<nat>, k: nat): int
    requires k <= |S|
    decreases |S|
  {
    if |S| == k then 1 else Above(S[..|S| - 1], k) * (S[|S| - 1] + 1)
  }

  function Below(S: seq<nat>, k: nat, l: int): int
    requires k <= |S|
    decreases |S|
  {
    if |S| == k then 1 else Below(S[..|S| - 1], k, l) * (S[|S| - 1] - l)
  }

  /** How the first trustee's weight changes when the points from the k-th on join. */
  lemma {:induction false} FirstWeights(G: Group, S: seq<nat>, k: nat)
    requires Points(G, S) && 1 <= k <= |S|
    ensures Cong(Weight(G, S, S[0]) * Below(S, k, S[0]), Weight(G, S[..k], S[0]) * Above(S, k), G.q)
    decreases |S|
  {
    if |S| == k {
      assert S[..k] == S;
    } else {
      var n := |S| - 1;
      var rest := S[..n];
      assert S == rest + [S[n]] && rest[0] == S[0] && rest[..k] == S[..k];
      WeightRemove(G, S, rest, S[n], S[0]);
      FirstWeights(G, rest, k);
      var first: int, last: int := S[0], S[n];
      WeightsChain(G.q, Weight(G, S, S[0]), Weight(G, rest, S[0]), Weight(G, S[..k], S[0]),
                   Below(rest, k, first), Above(rest, k), last - first, last + 1);
    }
  }

  lemma WeightsChain(q: int, w: int, w': int, wk: int, below: int, above: int, d: int, n: int)
    requires 0 < q && Cong(w * d, w' * n, q) && Cong(w' * below, wk * above, q)
    ensures Cong(w * (below * d), wk * (above * n), q)
  {
    CongScale(below, w * d, w' * n, q);
    CongScale(n, w' * below, wk * above, q);
    assert (w * d) * below == w * (below * d);
    assert (w' * n) * below == (w' * below) * n;
    MulAssoc(wk, above, n);
  }

  lemma {:induction false} BelowLessThanAbove(S: seq<nat>, k: nat, n: nat)
    requires 1 <= k < |S| && 1 <= n
    requires forall i :: 0 <= i < |S| ==> S[i] + 1 <= n
    requires forall i :: 1 <= i < |S| ==> S[0] < S[i]
    ensures 0 < Below(S, k, S[0]) < Above(S, k) <= Pow(n, |S| - k)
    decreases |S|
  {
    var m := |S| - 1;
    var x, y := S[m] - S[0], S[m] + 1;
    if |S| == k + 1 {
      assert Below(S[..m], k, S[0]) == 1 && Above(S[..m], k) == 1;
      assert Pow(n, 1) == n * Pow(n, 0) == n;
    } else {
      BelowLessThanAbove(S[..m], k, n);
      var b, a, p := Below(S[..m], k, S[0]), Above(S[..m], k), Pow(n, m - k);
      assert Pow(n, |S| - k) == n * p;
      ProductBounds(b, a, p, x, y, n);
    }
  }

  lemma ProductBounds(b: int, a: int, p: int, x: int, y: int, n: int)
    requires 0 < b < a <= p && 0 < x < y <= n
    ensures 0 < b * x < a * y <= n * p
  {
    MulMono(1, b, x);
    MulMono(b + 1, a, x);
    assert (b + 1) * x == b * x + x;
    MulMono(x, y, a);
    MulMono(a, p, y);
    MulMono(y, n, p);
  }

  lemma {:induction false} NumeratorInvertible(G: Group, arr: seq<nat>, l: nat)
    requires Points(G, arr)
    ensures !Divides(G.q, Numerator(l, arr))
  {
    if arr == [] {
      PrimeNotDividesSmall(G.q, 1);
    } else {
      var s := arr[|arr| - 1];
      NumeratorInvertible(G, arr[..|arr| - 1], l);
      if s != l {
        PrimeNotDividesSmall(G.q, s + 1);
        if Divides(G.q, Numerator(l, arr)) {
          PrimeDividesProduct(G.q, Numerator(l, arr[..|arr| - 1]), s + 1);
        }
      }
    }
  }

  lemma WeightInvertible(G: Group, arr: seq<nat>, l: nat)
    requires Points(G, arr) && l + 1 < G.q
    ensures !Divides(G.q, Weight(G, arr, l))
  {
    WeightEquation(G, arr, l);
    NumeratorInvertible(G, arr, l);
    var w, d, n := Weight(G, arr, l), Denominator(l, arr), Numerator(l, arr);
    if Divides(G.q, w) {
      hide Weight, Denominator, Numerator;
      var k := DividesFactor(G.q, w);
      MulExchange(k, G.q, d);
      DividesWitness(G.q, w * d, k * d);
    }
  }

  /** Further points change the first trustee's weight, as long as q is large enough. */
  lemma WeightsDiffer(G: Group, S: seq<nat>, k: nat, n: nat)
    requires Points(G, S) && 1 <= k < |S| <= n && Pow(n, n) < G.q
    requires forall i :: 0 <= i < |S| ==> S[i] + 1 <= n
    requires forall i :: 1 <= i < |S| ==> S[0] < S[i]
    ensures !Cong(Weight(G, S, S[0]), Weight(G, S[..k], S[0]), G.q)
  {
    BelowLessThanAbove(S, k, n);
    PowMono(n, |S| - k, n);
    FirstWeights(G, S, k);
    PrefixIsPoints(G, S, k);
    WeightInvertible(G, S[..k], S[0]);
    var w, w', b, a := Weight(G, S, S[0]), Weight(G, S[..k], S[0]), Below(S, k, S[0]), Above(S, k);
    hide Weight, Below, Above, Points;
    if Cong(w, w', G.q) {
      CongScale(b, w, w', G.q);
      CongTrans(w' * b, w * b, w' * a, G.q);
      MulComm(w', b);
      MulComm(w', a);
      CongCancel(b, a, w', G.q);
      CongSmall(b, a, G.q);
    }
  }

  lemma PrefixIsPoints(G: Group, S: seq<nat>, k: nat)
    requires Points(G, S) && k <= |S|
    ensures Points(G, S[..k])
  {}

  /**
   When more trustees announce than are asked, there is a polynomial of the right
   degree that the weighted fragments do not rebuild.
   */
  lemma RebuildFails(G: Group, S: seq<nat>, k: nat, n: nat) returns (c: seq<int>)
    requires Points(G, S) && 1 <= k < |S| <= n && Pow(n, n) < G.q
    requires forall i :: 0 <= i < |S| ==> S[i] + 1 <= n
    requires forall i :: 1 <= i < |S| ==> S[0] < S[i]
    ensures |c| == k
    ensures forall value: nat -> int :: (forall l: nat :: value(l) == Poly(c, l + 1)) ==>
      !Cong(Combine(G, S, S[..k], value), c[0], G.q)
  {
    var F := S[..k];
    c := RootPoly(F[1..]);
    forall value: nat -> int | forall l: nat :: value(l) == Poly(c, l + 1)
      ensures !Cong(Combine(G, S, F, value), c[0], G.q)
    {
      forall l: nat | l in F[1..] ensures value(l) == 0 {
        RootPolyValue(F[1..], l);
        DifferencesVanish(l, F[1..]);
      }
      CombineFirst(G, S, F, value);
      CombineFirst(G, F, F, value);
      PrefixIsPoints(G, S, k);
      Reconstruction(G, F, c, value);
      RootPolyValue(F[1..], F[0]);
      var y := Differences(F[0], F[1..]);
      assert forall i :: 0 <= i < |F[1..]| ==> F[1..][i] == S[i + 1];
      DifferencesInvertible(G, F[0], F[1..]);
      WeightsDiffer(G, S, k, n);
      var w, w' := Weight(G, S, F[0]), Weight(G, F, F[0]);
      hide Weight, Points, Differences, Poly;
      if Cong(w * y, c[0], G.q) {
        CongTrans(w * y, c[0], w' * y, G.q);
        CongCancel(w, w', y, G.q);
      }
    }
  }

  // ---- the exact condition ----------------------------------------------------------------------

  /** The keys of an election: coefficients for every trustee. */
  ghost predicate KeysFor(polys: seq<seq<nat>>, n: nat, k: nat) {
    |polys| == n && forall i :: 0 <= i < n ==> |polys[i]| == k
  }

  /** An election with these keys and nothing to tally. */
  function WithKeys(G: Group, n: nat, k: nat, polys: seq<seq<nat>>): Election {
    Election(G, n, k, polys, [], [], [])
  }

  /** The announced trustees and the fragments asked of them amount to the joint secret. */
  ghost predicate Rebuilds(G: Group, n: nat, k: nat, polys: seq<seq<nat>>, anounced: seq<bool>)
    requires G.Valid()
  {
    var E := WithKeys(G, n, k, polys);
    Cong(E.Combined(anounced, anounced), E.Secret(), G.q)
  }

  /** The same coefficients, reduced to non-negative ones. */
  function Reduced(G: Group, c: seq<int>): (r: seq<nat>)
    requires G.Positive()
    ensures |r| == |c|
  {
    seq(|c|, i requires 0 <= i < |c| => G.AddModQ(c[i], 0))
  }

  lemma {:induction false} ReducedTerms(G: Group, c: seq<int>, x: int, k: nat)
    requires G.Positive() && k <= |c|
    ensures Cong(PolyTerms(Reduced(G, c), x, k), PolyTerms(c, x, k), G.q)
  {
    if k > 0 {
      ReducedTerms(G, c, x, k - 1);
      CongMod(c[k - 1], G.q);
      var y := Pow(x, k - 1);
      CongScale(y, Reduced(G, c)[k - 1], c[k - 1], G.q);
      CongAdd(PolyTerms(Reduced(G, c), x, k - 1), PolyTerms(c, x, k - 1),
              Reduced(G, c)[k - 1] * y, c[k - 1] * y, G.q);
    }
  }

  function Zeros(k: nat): (r: seq<nat>)
    ensures |r| == k && forall i :: 0 <= i < k ==> r[i] == 0
  {
    Repeated(0, k)
  }

  /** One missing trustee holds c, and every other coefficient is zero. */
  function SingleKey(n: nat, k: nat, m: nat, c: seq<nat>): (r: seq<seq<nat>>)
    ensures |r| == n && forall i :: 0 <= i < n ==> r[i] == if i == m then c else Zeros(k)
  {
    seq(n, i => if i == m then c else Zeros(k))
  }

  lemma SingleKeySecrets(G: Group, n: nat, k: nat, m: nat, c: seq<nat>, anounced: seq<bool>)
    requires 1 <= k <= n && |c| == k && |anounced| == n && m < n && !anounced[m]
    ensures
      var E := WithKeys(G, n, k, SingleKey(n, k, m, c));
      && E.Secret() == c[0]
      && FlagSum(anounced, (i: nat) => E.SecretOf(i)) == 0
  {
    var E := WithKeys(G, n, k, SingleKey(n, k, m, c));
    forall i: nat | i != m ensures E.SecretOf(i) == 0 {
      if i < n { assert E.polys[i] == Zeros(k); }
    }
    FlagSumNone(anounced, (i: nat) => E.SecretOf(i));
    SingleFlag(Repeated(true, n), (i: nat) => E.SecretOf(i), m);
  }

  lemma SingleKeyValues(G: Group, n: nat, k: nat, m: nat, c: seq<nat>, anounced: seq<bool>, l: nat)
    requires 1 <= k <= n && |c| == k && |anounced| == n && m < n && !anounced[m]
    ensures WithKeys(G, n, k, SingleKey(n, k, m, c)).MissingValue(anounced, l) == Poly(c, l + 1)
  {
    var E := WithKeys(G, n, k, SingleKey(n, k, m, c));
    forall i: nat | i < n && i != m ensures E.ShareValue(i, l) == 0 {
      assert E.polys[i] == Zeros(k);
      ZerosArePoly(k, l + 1);
    }
    SingleFlag(Negated(anounced), (i: nat) => E.ShareValue(i, l), m);
  }

  lemma SingleKeyCombined(G: Group, n: nat, k: nat, m: nat, c: seq<nat>, anounced: seq<bool>)
    requires G.Valid() && 1 <= k <= n < G.q && |c| == k && |anounced| == n && m < n && !anounced[m]
    requires k <= |Listed(anounced)|
    ensures
      var E := WithKeys(G, n, k, SingleKey(n, k, m, c));
      E.Combined(anounced, anounced)
        == Combine(G, Listed(anounced), Listed(anounced)[..k], (l: nat) => E.MissingValue(anounced, l))
  {
    var E := WithKeys(G, n, k, SingleKey(n, k, m, c));
    SingleKeySecrets(G, n, k, m, c, anounced);
    ContributionsCombine(E, anounced, n);
    assert anounced[..n] == anounced;
  }

  lemma ZerosArePoly(k: nat, x: int)
    ensures Poly(Zeros(k), x) == 0
  {
    var z: seq<int> := Repeated(0, k);
    assert z == Zeros(k);
    PolyOfZeros(x, k, k);
  }

  lemma {:induction false} SingleFlag(flags: seq<bool>, f: nat -> int, m: nat)
    requires m < |flags| && flags[m] && forall i :: 0 <= i < |flags| && i != m ==> f(i) == 0
    ensures FlagSum(flags, f) == f(m)
  {
    var n := |flags| - 1;
    if m == n {
      FlagSumNone(flags[..n], f);
    } else {
      SingleFlag(flags[..n], f, m);
    }
  }

  /**
   The exact condition: with at least the threshold announced, the code rebuilds the
   joint secret for every choice of keys if and only if exactly the threshold, or
   everybody, has announced. (The shipped q is far above n^n for the five trustees
   the code allows.)
   */
  lemma RebuildsExactly(G: Group, n: nat, k: nat, anounced: seq<bool>)
    requires G.Valid() && 1 <= k <= n && Pow(n, n) < G.q
    requires |anounced| == n && k <= |Listed(anounced)|
    ensures (forall polys :: KeysFor(polys, n, k) ==> Rebuilds(G, n, k, polys, anounced))
       <==> |Listed(anounced)| == k || |Listed(anounced)| == n
  {
    PowMono(n, 1, n);
    assert Pow(n, 1) == n * Pow(n, 0) == n;
    ListedMembers(anounced);
    if |Listed(anounced)| == k || |Listed(anounced)| == n {
      forall polys | KeysFor(polys, n, k) ensures Rebuilds(G, n, k, polys, anounced) {
        CombinedIsSecret(WithKeys(G, n, k, polys), anounced);
      }
    } else {
      var polys := KeysNotRebuilt(G, n, k, anounced);
    }
  }

  lemma KeysNotRebuilt(G: Group, n: nat, k: nat, anounced: seq<bool>) returns (polys: seq<seq<nat>>)
    requires G.Valid() && 1 <= k <= n < G.q && Pow(n, n) < G.q
    requires |anounced| == n && k < |Listed(anounced)| < n
    ensures KeysFor(polys, n, k) && !Rebuilds(G, n, k, polys, anounced)
  {
    var S := Listed(anounced);
    ListedBounds(anounced);
    var m :| 0 <= m < n && !anounced[m];
    var c := ListedNotRebuilt(G, n, k, anounced);
    var c' := Reduced(G, c);
    polys := SingleKey(n, k, m, c');
    var E := WithKeys(G, n, k, polys);
    SingleKeySecrets(G, n, k, m, c', anounced);
    SingleKeyCombined(G, n, k, m, c', anounced);
    var value, value' := (l: nat) => Poly(c, l + 1), (l: nat) => E.MissingValue(anounced, l);
    forall l: nat ensures Cong(value'(l), value(l), G.q) {
      SingleKeyValues(G, n, k, m, c', anounced, l);
      ReducedTerms(G, c, l + 1, k);
    }
    assert !Cong(Combine(G, S, S[..k], value), c[0], G.q);
    CongMod(c[0], G.q);
    hide Combine, E.Combined, E.Secret, E.MissingValue, Listed, Poly, Weight;
    NotCong(G, S, S[..k], value, value', c[0], c'[0]);
  }

  lemma NotCong(G: Group, S: seq<nat>, F: seq<nat>, value: nat -> int, value': nat -> int, v: int, v': int)
    requires G.Positive() && (forall l: nat :: Cong(value'(l), value(l), G.q)) && Cong(v', v, G.q)
    requires !Cong(Combine(G, S, F, value), v, G.q)
    ensures !Cong(Combine(G, S, F, value'), v', G.q)
  {
    hide Weight, Combine;
    CombineSame(G, S, F, value', value);
  }

  lemma ListedNotRebuilt(G: Group, n: nat, k: nat, anounced: seq<bool>) returns (c: seq<int>)
    requires G.Valid() && 1 <= k <= n < G.q && Pow(n, n) < G.q
    requires |anounced| == n && k < |Listed(anounced)| < n
    ensures |c| == k
    ensures forall value: nat -> int :: (forall l: nat :: value(l) == Poly(c, l + 1)) ==>
      !Cong(Combine(G, Listed(anounced), Listed(anounced)[..k], value), c[0], G.q)
  {
    var S := Listed(anounced);
    ListedPoints(WithKeys(G, n, k, SingleKey(n, k, 0, Zeros(k))), anounced);
    ListedMembers(anounced);
    ListedSorted(anounced);
    assert forall i :: 0 <= i < |S| ==> S[i] in S;
    c := RebuildFails(G, S, k, n);
  }
}
