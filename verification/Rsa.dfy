/**
 RSA as the key ceremony uses it to wrap shares (rsa.c): textbook encryption with
 exponent 3 and the Carmichael exponent, as in sections 3.2, 5.1.1 and 5.1.2 of
 RFC 8017.
 */
module Rsa {
  import opened Arithmetic
  import opened Bytes
  import opened Primes

  const BUFFER_SIZE: nat := 256

  datatype PublicKey = PublicKey(n: nat, e: nat)
  datatype PrivateKey = PrivateKey(n: nat, e: nat, d: nat, p: nat, q: nat)
  datatype Option<+T> = None | Some(value: T)

  /** What makes a private key usable. */
  ghost predicate ValidKey(k: PrivateKey) {
    && IsPrime(k.p) && IsPrime(k.q) && k.p != k.q
    && k.n == k.p * k.q
    && k.p % 3 != 1 && k.q % 3 != 1
    && k.e == 3
    && 0 < Lcm(k.p - 1, k.q - 1)
    && k.d < Lcm(k.p - 1, k.q - 1)
    && Cong(k.e * k.d, 1, Lcm(k.p - 1, k.q - 1))
  }

  function Encrypt(message: nat, key: PublicKey): nat
    requires 0 < key.n
  {
    Residue(Pow(message, key.e), key.n)
  }

  function Decrypt(encrypted: nat, key: PrivateKey): nat
    requires 0 < key.n
  {
    Residue(Pow(encrypted, key.d), key.n)
  }

  function Residue(x: int, m: nat): nat
    requires 0 < m
  {
    x % m
  }

  // ---- decryption undoes encryption -----------------------------------------------

  /** Exponents that are 1 modulo p - 1 leave every number alone modulo p. */
  lemma ExponentIsIdentity(m: nat, p: nat, x: nat)
    requires IsPrime(p) && 1 <= x && Divides(p - 1, x - 1)
    ensures Cong(Pow(m, x), m, p)
  {
    assert Pow(m, x) == m * Pow(m, x - 1);
    if Divides(p, m) {
      CongMod(0, p);
      hide *;
      CongScale(Pow(m, x - 1), m, 0, p);
    } else {
      var k := FactorOfExponent(p - 1, x - 1);
      Fermat(m, p);
      hide *;
      PowMul(m, p - 1, k);
      CongPow(Pow(m, p - 1), 1, k, p);
      PowOne(k);
      CongScale(m, Pow(m, x - 1), 1, p);
    }
  }

  lemma FactorOfExponent(d: nat, x: nat) returns (k: nat)
    requires 0 < d && Divides(d, x)
    ensures x == d * k
  {
    var j := DividesFactor(d, x);
    if j < 0 { MulMono(j, -1, d); }
    MulComm(j, d);
    k := j;
  }

  /** Congruent modulo two different primes, congruent modulo their product. */
  lemma CongProduct(a: int, b: int, p: nat, q: nat)
    requires IsPrime(p) && IsPrime(q) && p != q && Cong(a, b, p) && Cong(a, b, q)
    ensures 0 < p * q && Cong(a, b, p * q)
  {
    MulMono(1, p, q);
    var k := CongFactor(a, b, p);
    CongZero(a, b, q);
    assert a - b == k * p;
    PrimeDividesProduct(q, k, p);
    if Divides(q, p) {
      DividesBound(q, p);
    }
    var l := DividesFactor(q, k);
    MulAssoc(l, q, p);
    assert q * p == p * q;
    CongWitness(a, b, p * q, l);
  }

  /** The round trip, for every message below the modulus, coprime to it or not. */
  lemma DecryptEncrypt(m: nat, k: PrivateKey)
    requires ValidKey(k) && m < k.n
    ensures Decrypt(Encrypt(m, PublicKey(k.n, k.e)), k) == m
  {
    var lambda, x := Lcm(k.p - 1, k.q - 1), k.e * k.d;
    LcmIsCommonMultiple(k.p - 1, k.q - 1);
    if x == 0 {
      CongMod(0, lambda);
      CongZero(0, 1, lambda);
      assert Divides(lambda, -1);
      CongZero(1, 0, lambda);
      DividesBound(lambda, 1);
      CarmichaelNotOne(k.p, k.q);
    }
    CongZero(x, 1, lambda);
    assert Divides(lambda, x - 1);
    DividesTrans(k.p - 1, lambda, x - 1);
    DividesTrans(k.q - 1, lambda, x - 1);
    ExponentIsIdentity(m, k.p, x);
    ExponentIsIdentity(m, k.q, x);
    CongProduct(Pow(m, x), m, k.p, k.q);
    PowMul(m, k.e, k.d);
    var c := Pow(m, k.e);
    CongMod(c, k.n);
    CongPow(c % k.n, c, k.d, k.n);
    CongMod(m, k.n);
  }

  lemma CarmichaelNotOne(p: nat, q: nat)
    requires IsPrime(p) && IsPrime(q) && p != q
    ensures 1 < Lcm(p - 1, q - 1)
  {
    LcmIsCommonMultiple(p - 1, q - 1);
    DividesBound(p - 1, Lcm(p - 1, q - 1));
    DividesBound(q - 1, Lcm(p - 1, q - 1));
  }

  // ---- key generation ------------------------------------------------------------------

  /** mpz_import of bytes, most significant first. */
  function Import(bytes: seq<bv8>): nat {
    if bytes == [] then 0
    else Import(bytes[..|bytes| - 1]) * 256 + bytes[|bytes| - 1] as int
  }

  /** What a digit with k digits to its right is worth. */
  function Weight(k: nat): (w: nat)
    ensures 1 <= w
  {
    PowPositive(256, k);
    Pow(256, k)
  }

  /** The number with these digits to the base 256, the most significant one first. */
  function Positional(digits: seq<nat>): nat {
    if digits == [] then 0 else digits[0] * Weight(|digits| - 1) + Positional(digits[1..])
  }

  lemma {:induction false} PositionalAppend(digits: seq<nat>, last: nat)
    ensures Positional(digits + [last]) == Positional(digits) * 256 + last
  {
    if digits == [] {
      assert [] + [last] == [last] && [last][1..] == [];
    } else {
      var n := |digits| - 1;
      PositionalAppend(digits[1..], last);
      assert (digits + [last])[1..] == digits[1..] + [last];
      assert Weight(n + 1) == 256 * Weight(n);
      MulAssoc(digits[0], Weight(n), 256);
      MulComm(Weight(n), 256);
    }
  }

  /** Every digit can be read off the number. */
  lemma {:induction false} DigitOf(digits: seq<nat>, i: nat)
    requires i < |digits| && forall k :: 0 <= k < |digits| ==> digits[k] < 256
    ensures Positional(digits) / Weight(|digits| - 1 - i) % 256 == digits[i]
    ensures Positional(digits) < Weight(|digits|)
  {
    var n := |digits| - 1;
    var before, last := digits[..n], digits[n];
    assert digits == before + [last] && Positional([]) == 0 && Weight(0) == 1;
    assert Weight(n + 1) == 256 * Weight(n);
    assert i < n ==> Weight(n - i) == 256 * Weight(n - 1 - i);
    hide Positional, Weight;
    PositionalAppend(before, last);
    if n > 0 {
      DigitOf(before, if i < n then i else 0);
    }
    if i < n {
      DivideTwice(Positional(before), last, Weight(n - 1 - i));
    } else {
      LastDigit(Positional(before), last);
    }
  }

  lemma LastDigit(v: nat, last: nat)
    requires last < 256
    ensures (v * 256 + last) / 1 % 256 == last
  {}

  lemma DivideTwice(v: nat, last: nat, weight: int)
    requires last < 256 && 1 <= weight
    ensures 1 <= 256 * weight && (v * 256 + last) / (256 * weight) == v / weight
  {
    var k, r := v / weight, v % weight;
    assert v == weight * k + r;
    MulComm(256, weight);
    MulAssoc(k, weight, 256);
    MulComm(weight, k);
    DivModUnique(v * 256 + last, 256 * weight, k, r * 256 + last);
  }

  /** The bytes as digits, with the top two bits and the bottom bit set. */
  function StartDigits(buffer: seq<bv8>): (digits: seq<nat>)
    ensures |digits| == |buffer| && forall i :: 0 <= i < |digits| ==> digits[i] < 256
  {
    seq(|buffer|, i requires 0 <= i < |buffer| =>
      var b := buffer[i] as nat;
      if i == 0 then 0xC0 + b % 0x40 else if i == |buffer| - 1 then b / 2 * 2 + 1 else b)
  }

  /** The number that the search for a prime starts from. */
  function StartOf(buffer: seq<bv8>): nat {
    Positional(StartDigits(buffer))
  }

  /**
   The starting point is the number whose bytes are the random ones, but for the top
   two bits and the bottom bit, which are set: no other random bit is lost or changed.
   */
  lemma StartKeepsBytes(buffer: seq<bv8>, i: nat)
    requires 2 <= |buffer| && i < |buffer|
    ensures
      var byte, random := StartOf(buffer) / Weight(|buffer| - 1 - i) % 256, buffer[i] as nat;
      && (i == 0 ==> byte / 0x40 == 3 && byte % 0x40 == random % 0x40)
      && (i == |buffer| - 1 ==> byte % 2 == 1 && byte / 2 == random / 2)
      && (0 < i < |buffer| - 1 ==> byte == random)
    ensures StartOf(buffer) < Weight(|buffer|)
  {
    DigitOf(StartDigits(buffer), i);
  }

  lemma {:induction false} ImportIsPositional(bytes: seq<bv8>, digits: seq<nat>)
    requires |bytes| == |digits| && forall i :: 0 <= i < |bytes| ==> digits[i] == bytes[i] as nat
    ensures Import(bytes) == Positional(digits)
  {
    if bytes != [] {
      var n := |bytes| - 1;
      ImportIsPositional(bytes[..n], digits[..n]);
      PositionalAppend(digits[..n], digits[n]);
      assert digits == digits[..n] + [digits[n]];
    }
  }

  lemma ImportIsStart(buffer: seq<bv8>, bytes: seq<bv8>)
    requires 2 <= |buffer|
    requires bytes == buffer[0 := buffer[0] | 0xC0][|buffer| - 1 := buffer[|buffer| - 1] | 0x01]
    ensures Import(bytes) == StartOf(buffer)
  {
    var last := |buffer| - 1;
    TopBitsSet(buffer[0]);
    BottomBitSet(buffer[last]);
    hide Import, Positional;
    ImportIsPositional(bytes, StartDigits(buffer));
  }

  lemma TopBitsSet(b: bv8)
    ensures (b | 0xC0) as nat == 0xC0 + b as nat % 0x40
  {
    assert b | 0xC0 == 0xC0 + b % 0x40;
    assert (b % 0x40) as nat == b as nat % 0x40;
  }

  lemma BottomBitSet(b: bv8)
    ensures (b | 0x01) as nat == b as nat / 2 * 2 + 1
  {
    hide *;
    EvenOrOdd(b);
    Parity(b);
  }

  lemma EvenOrOdd(b: bv8)
    ensures (b | 0x01) as nat == if b % 2 == 0 then b as nat + 1 else b as nat
  {}

  lemma Parity(b: bv8)
    ensures (b % 2) as nat == b as nat % 2
  {}

  /** The primes the search stops at. */
  ghost predicate Suits(p: nat) {
    IsPrime(p) && p % 3 != 1
  }

  ghost predicate LeastSuitable(n: nat, p: nat) {
    n < p && Suits(p) && forall x :: n < x < p ==> !Suits(x)
  }

  /** The prime that these random bytes stand for. */
  ghost predicate PrimeOf(buffer: seq<bv8>, p: nat) {
    LeastSuitable(StartOf(buffer), p)
  }

  /** The bytes stand for one prime and no other. */
  lemma OnePrime(buffer: seq<bv8>, p: nat, q: nat)
    requires PrimeOf(buffer, p) && PrimeOf(buffer, q)
    ensures p == q
  {
    hide StartOf, Suits;
  }

  lemma {:induction false} ImportAtLeastFirst(bytes: seq<bv8>)
    requires bytes != []
    ensures bytes[0] as int * Pow(256, |bytes| - 1) <= Import(bytes)
  {
    var n := |bytes| - 1;
    if n == 0 {
      assert bytes[..0] == [];
    } else {
      ImportAtLeastFirst(bytes[..n]);
      assert bytes[..n][0] == bytes[0];
      AppendByte(bytes[0] as int, Pow(256, n - 1), Import(bytes[..n]), bytes[n] as int);
    }
  }

  lemma AppendByte(first: int, weight: int, before: int, last: nat)
    requires first * weight <= before
    ensures first * (256 * weight) <= before * 256 + last
  {
    MulAssoc(first, 256, weight);
    MulComm(first, 256);
    MulAssoc(256, first, weight);
  }

  /** mpz_nextprime: the least prime above n. */
  method NextPrime(n: nat) returns (r: nat)
    ensures n < r && IsPrime(r)
    ensures forall x :: n < x < r ==> !IsPrime(x)
  {
    ghost var above := PrimeTwoModThreeAbove(n);
    r := n + 1;
    while !IsPrime(r)
      invariant n < r <= above
      invariant forall x :: n < x < r ==> !IsPrime(x)
      decreases above - r
    {
      r := r + 1;
    }
  }

  /**
   The search for one of the two primes: start from the bytes with the top two
   bits and the bottom bit set, and go on while 3 would divide the prime less one.
   */
  method SelectPrime(buffer: seq<bv8>) returns (p: nat)
    requires |buffer| == BUFFER_SIZE
    ensures PrimeOf(buffer, p)
    ensures 0xC0 < p && 0xC0 * Pow(256, |buffer| - 1) < p
  {
    PowPositive(256, |buffer| - 1);
    var bytes := buffer[0 := buffer[0] | 0xC0];
    bytes := bytes[BUFFER_SIZE - 1 := bytes[BUFFER_SIZE - 1] | 0x01];
    TopBits(buffer[0]);
    ImportAtLeastFirst(bytes);
    ImportIsStart(buffer, bytes);
    ghost var floor := Pow(256, |buffer| - 1);
    MulMono(0xC0, bytes[0] as int, floor);
    MulMono(1, floor, 0xC0);
    hide Import, StartOf, StartDigits, IsPrime;
    p := NextPrime(Import(bytes));
    ghost var above := PrimeTwoModThreeAbove(p);
    while p % 3 == 1
      invariant IsPrime(p) && 0xC0 <= 0xC0 * floor < p <= above && StartOf(buffer) < p
      invariant forall x :: StartOf(buffer) < x < p ==> !Suits(x)
      decreases above - p
    {
      p := NextPrime(p);
    }
  }

  lemma TopBits(b: bv8)
    ensures 0xC0 <= (b | 0xC0) as int
  {
    assert 0xC0 <= (b | 0xC0);
  }

  /** Two buffers lead to the same prime. */
  ghost predicate SamePrime(b: seq<bv8>, b': seq<bv8>) {
    exists p :: PrimeOf(b, p) && PrimeOf(b', p)
  }

  /** The byte cut out of a big number: its low word modulo 255, so that 0xFF never comes up. */
  function AttemptByte(u: nat): bv8 {
    ((u % 0x1_0000_0000_0000_0000) % 0xFF) as bv8
  }

  lemma AttemptByteIs(u: nat)
    ensures AttemptByte(u) as nat == u % 0x1_0000_0000_0000_0000 % 0xFF
  {
    ByteRoundTrip((u % 0x1_0000_0000_0000_0000) % 0xFF);
  }

  function AttemptBytes(attempt: seq<nat>): (buffer: seq<bv8>)
    ensures |buffer| == |attempt|
  {
    seq(|attempt|, j requires 0 <= j < |attempt| => AttemptByte(attempt[j]))
  }

  /** The first n attempts all end in the prime of b. */
  ghost predicate AllSame(b: seq<bv8>, attempts: seq<seq<nat>>, n: nat) {
    forall i :: 0 <= i < n <= |attempts| ==> SamePrime(b, AttemptBytes(attempts[i]))
  }

  /** q is the prime of the first attempt that does not end in the prime of b. */
  ghost predicate FirstOther(b: seq<bv8>, attempts: seq<seq<nat>>, q: nat) {
    exists i :: 0 <= i < |attempts| && OtherAt(b, attempts, i, q)
  }

  ghost predicate OtherAt(b: seq<bv8>, attempts: seq<seq<nat>>, i: nat, q: nat)
    requires i < |attempts|
  {
    AllSame(b, attempts, i) && !SamePrime(b, AttemptBytes(attempts[i])) && PrimeOf(AttemptBytes(attempts[i]), q)
  }

  lemma OfPrime(buffer: seq<bv8>, p: nat)
    requires PrimeOf(buffer, p)
    ensures IsPrime(p) && p % 3 != 1
  {}

  lemma OtherPrime(b: seq<bv8>, b': seq<bv8>, p: nat, q: nat)
    requires PrimeOf(b, p) && PrimeOf(b', q) && p != q
    ensures !SamePrime(b, b')
  {
    hide PrimeOf;
    if SamePrime(b, b') {
      var r :| PrimeOf(b, r) && PrimeOf(b', r);
      OnePrime(b, p, r);
      OnePrime(b', q, r);
    }
  }

  lemma OneMoreSame(b: seq<bv8>, attempts: seq<seq<nat>>, i: nat, p: nat)
    requires i < |attempts| && AllSame(b, attempts, i)
    requires PrimeOf(b, p) && PrimeOf(AttemptBytes(attempts[i]), p)
    ensures AllSame(b, attempts, i + 1)
  {
    hide PrimeOf;
    assert SamePrime(b, AttemptBytes(attempts[i]));
    hide SamePrime;
  }

  lemma NoneSame(b: seq<bv8>, attempts: seq<seq<nat>>)
    ensures AllSame(b, attempts, 0)
  {}

  /** An attempt with another prime is not one of those with the same. */
  lemma FirstFound(b: seq<bv8>, attempts: seq<seq<nat>>, i: nat, p: nat, q: nat)
    requires i < |attempts| && AllSame(b, attempts, i)
    requires PrimeOf(b, p) && PrimeOf(AttemptBytes(attempts[i]), q) && p != q
    ensures FirstOther(b, attempts, q) && !AllSame(b, attempts, |attempts|)
  {
    hide PrimeOf;
    OtherPrime(b, AttemptBytes(attempts[i]), p, q);
    hide SamePrime;
    assert OtherAt(b, attempts, i, q);
  }

  /** The do-while loop for q: attempt after attempt, until the prime is not p. */
  method SelectOther(ghost bufferP: seq<bv8>, p: nat, attemptsQ: seq<seq<nat>>) returns (r: Option<nat>)
    requires PrimeOf(bufferP, p) && forall a :: a in attemptsQ ==> |a| == BUFFER_SIZE
    ensures r.None? <==> AllSame(bufferP, attemptsQ, |attemptsQ|)
    ensures r.Some? ==>
      && FirstOther(bufferP, attemptsQ, r.value) && r.value != p
      && IsPrime(p) && p % 3 != 1 && IsPrime(r.value) && r.value % 3 != 1
      && 0xC0 < r.value && 0xC0 * Pow(256, BUFFER_SIZE - 1) < r.value
  {
    hide PrimeOf, AllSame, FirstOther, AttemptByte, IsPrime, Pow;
    OfPrime(bufferP, p);
    NoneSame(bufferP, attemptsQ);
    var q := p;
    var i := 0;
    while q == p
      invariant i <= |attemptsQ| && (q == p ==> AllSame(bufferP, attemptsQ, i))
      invariant q != p ==>
        && FirstOther(bufferP, attemptsQ, q) && !AllSame(bufferP, attemptsQ, |attemptsQ|)
        && IsPrime(q) && q % 3 != 1 && 0xC0 < q && 0xC0 * Pow(256, BUFFER_SIZE - 1) < q
      decreases |attemptsQ| - i
    {
      if i == |attemptsQ| { return None; }
      var buffer := seq(BUFFER_SIZE, j requires 0 <= j < BUFFER_SIZE => AttemptByte(attemptsQ[i][j]));
      assert buffer == AttemptBytes(attemptsQ[i]);
      q := SelectPrime(buffer);
      OfPrime(buffer, q);
      if q == p {
        OneMoreSame(bufferP, attemptsQ, i, p);
      } else {
        FirstFound(bufferP, attemptsQ, i, p, q);
      }
      i := i + 1;
    }
    r := Some(q);
  }

  /**
   generate_keys. The random bytes are arguments: one buffer for p and, for q, the
   big numbers of each attempt of its do-while loop, from which the bytes are cut
   out. None when every attempt ends in the prime p again.
   */
  method GenerateKeys(bufferP: seq<bv8>, attemptsQ: seq<seq<nat>>)
    returns (r: Option<(PrivateKey, PublicKey)>)
    requires |bufferP| == BUFFER_SIZE
    requires forall a :: a in attemptsQ ==> |a| == BUFFER_SIZE
    ensures r.Some? ==>
      && ValidKey(r.value.0)
      && r.value.1 == PublicKey(r.value.0.n, r.value.0.e)
      && Pow(256, 2 * (|bufferP| - 1)) < r.value.0.n
    ensures r.None? <==> AllSame(bufferP, attemptsQ, |attemptsQ|)
    ensures r.Some? ==> PrimeOf(bufferP, r.value.0.p) && FirstOther(bufferP, attemptsQ, r.value.0.q)
  {
    hide PrimeOf, AllSame, FirstOther;
    var e := 3;
    var p := SelectPrime(bufferP);
    var selected := SelectOther(bufferP, p, attemptsQ);
    if selected.None? { return None; }
    var q := selected.value;
    ghost var floor := Pow(256, |bufferP| - 1);
    PowPositive(256, |bufferP| - 1);
    var n := p * q;
    var lambda := Lcm(p - 1, q - 1);
    CarmichaelFacts(p, q);
    assert lambda > e;
    var gcd := Gcd(e, lambda);
    assert gcd == 1;
    var d := Invert(e, lambda);
    ExponentInverse(lambda);
    PowAdd(256, |bufferP| - 1, |bufferP| - 1);
    ProductAbove(floor, p, q);
    r := Some((PrivateKey(n, e, d, p, q), PublicKey(n, e)));
  }

  lemma ProductAbove(floor: int, p: int, q: int)
    requires 1 <= floor && 0xC0 * floor < p && 0xC0 * floor < q
    ensures floor * floor < p * q
  {
    MulMono(floor, p, floor);
    MulMono(floor + 1, q, p);
  }

  lemma NoFactorThree(p: nat)
    requires IsPrime(p) && 0xC0 < p && p % 3 != 1
    ensures !Divides(3, p - 1)
  {
    var k, r := p / 3, p % 3;
    assert p == 3 * k + r;
    if r == 0 { DivModUnique(p - 1, 3, k - 1, 2); } else { DivModUnique(p - 1, 3, k, 1); }
  }

  /** The two asserts of generate_keys hold for the primes it selects. */
  lemma CarmichaelFacts(p: nat, q: nat)
    requires IsPrime(p) && IsPrime(q) && 0xC0 < p && 0xC0 < q && p % 3 != 1 && q % 3 != 1
    ensures 3 < Lcm(p - 1, q - 1) && Gcd(3, Lcm(p - 1, q - 1)) == 1
  {
    var a, b := p - 1, q - 1;
    NoFactorThree(p);
    NoFactorThree(q);
    hide IsPrime, Gcd, Lcm, Divides;
    LcmIsCommonMultiple(a, b);
    DividesBound(a, Lcm(a, b));
    ThreeIsPrime();
    var d := Gcd(a, b);
    var u, v := Bezout(a, b);
    var k := DividesFactor(d, a);
    if Divides(3, Lcm(a, b)) {
      PrimeDividesProduct(3, k, b);
      MultipleOfFactor(3, k, d);
    }
    GcdWithThree(Lcm(a, b));
  }

  lemma MultipleOfFactor(f: int, k: int, d: int)
    requires 0 < f && Divides(f, k)
    ensures Divides(f, k * d)
  {
    var l := DividesFactor(f, k);
    MulExchange(l, f, d);
    DividesWitness(f, k * d, l * d);
  }

  lemma ThreeIsPrime()
    ensures IsPrime(3)
  {}

  lemma GcdWithThree(x: nat)
    requires !Divides(3, x)
    ensures Gcd(3, x) == 1
  {
    var u, v := Bezout(3, x);
    var g := Gcd(3, x);
    DividesBound(g, 3);
    ThreeIsPrime();
    assert g != 3;
  }

  lemma ExponentInverse(lambda: nat)
    requires 3 < lambda && Gcd(3, lambda) == 1
    ensures 0 <= Invert(3, lambda) < lambda && Cong(3 * Invert(3, lambda), 1, lambda)
  {
    var u, v := Bezout(3, lambda);
    CongWitness(3 * u, 1, lambda, -v);
    InvertFinds(3, lambda, u);
  }
}
