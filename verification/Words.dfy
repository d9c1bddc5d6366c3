/**
 Dynamically sized big numbers (uint4096.c): big-endian runs of 64-bit words
 inside buffers, changed in place by ripple carries.
 */
module Words {
  import opened Arithmetic

  const HALF: nat := 0x1_0000_0000
  const WORD: nat := 0x1_0000_0000_0000_0000

  type Word = x: nat | x < WORD

  // ---- the number a run of words stands for -------------------------------------------------

  function Value(s: seq<Word>): nat {
    if s == [] then 0 else Value(s[..|s| - 1]) * WORD + s[|s| - 1]
  }

  function Base(n: nat): (r: nat)
    ensures 1 <= r
  {
    PowPositive(WORD, n);
    Pow(WORD, n)
  }

  lemma BaseSucc(n: nat)
    ensures Base(n + 1) == WORD * Base(n)
  {}

  lemma BaseAdd(m: nat, n: nat)
    ensures Base(m + n) == Base(m) * Base(n)
  {
    PowAdd(WORD, m, n);
  }

  lemma {:induction false} ValueBound(s: seq<Word>)
    ensures Value(s) < Base(|s|)
  {
    if s != [] {
      ValueBound(s[..|s| - 1]);
      BaseSucc(|s| - 1);
    }
  }

  lemma {:induction false} ValueConcat(s: seq<Word>, t: seq<Word>)
    ensures Value(s + t) == Value(s) * Base(|t|) + Value(t)
  {
    if t == [] {
      assert s + t == s;
    } else {
      var n := |t| - 1;
      ValueConcat(s, t[..n]);
      assert (s + t)[..|s + t| - 1] == s + t[..n];
      BaseSucc(n);
      AppendWord(Value(s), Base(n), Value(t[..n]));
    }
  }

  lemma AppendWord(v: int, weight: int, w: int)
    ensures (v * weight + w) * WORD == v * (WORD * weight) + w * WORD
  {
    MulAssoc(v, WORD, weight);
    MulComm(v * WORD, weight);
    MulAssoc(weight, v, WORD);
    MulComm(weight, v);
  }

  lemma ValueCons(w: Word, s: seq<Word>)
    ensures Value([w] + s) == w * Base(|s|) + Value(s)
  {
    ValueConcat([w], s);
    assert [w][..0] == [];
    assert Value([w]) == w;
  }

  lemma {:induction false} ValueZeros(s: seq<Word>)
    requires forall i :: 0 <= i < |s| ==> s[i] == 0
    ensures Value(s) == 0
  {
    if s != [] { ValueZeros(s[..|s| - 1]); }
  }

  /** Different runs of the same length stand for different numbers: the first difference decides. */
  lemma FirstDifference(s: seq<Word>, t: seq<Word>, i: nat)
    requires |s| == |t| && i < |s| && s[..i] == t[..i] && s[i] < t[i]
    ensures Value(s) < Value(t)
  {
    hide Value, Base;
    var n := |s| - i - 1;
    SplitAt(s, i);
    SplitAt(t, i);
    ValueBound(s[i + 1..]);
    LowerDigits(s[i], t[i], Base(n), Value(s[i + 1..]), Value(t[i + 1..]));
  }

  lemma SplitAt(s: seq<Word>, i: nat)
    requires i < |s|
    ensures
      var n := |s| - i - 1;
      Value(s) == Value(s[..i]) * Base(n + 1) + (s[i] * Base(n) + Value(s[i + 1..]))
  {
    hide Value, Base;
    assert s == s[..i] + ([s[i]] + s[i + 1..]);
    ValueConcat(s[..i], [s[i]] + s[i + 1..]);
    ValueCons(s[i], s[i + 1..]);
  }

  lemma LowerDigits(u: int, v: int, weight: int, x: int, y: int)
    requires u < v && x < weight && 0 <= y && 0 <= weight
    ensures u * weight + x < v * weight + y
  {
    MulMono(u + 1, v, weight);
  }

  // ---- runs inside buffers --------------------------------------------------------------------

  ghost predicate Run(x: array<Word>, o: nat, n: nat) {
    o + n <= x.Length
  }

  /** What a carry out of n words is worth. */
  function Carried(carry: Word, n: nat): nat {
    if carry == 0 then 0 else Base(n)
  }

  /** These words and this carry are the sum of the two runs. */
  ghost predicate Adds(sum: seq<Word>, carry: Word, sa: seq<Word>, sb: seq<Word>) {
    Value(sum) + Carried(carry, |sum|) == Value(sa) + Value(sb)
  }

  /** One more word of an addition, on the left. */
  lemma AddWord(sa: seq<Word>, sb: seq<Word>, rest: seq<Word>, carry: Word, wa: Word, wb: Word, sum: Word, carry': Word)
    requires |sa| == |sb| == |rest| && carry <= 1 && carry' <= 1 && Adds(rest, carry, sa, sb)
    requires wa + wb + carry == sum + (if carry' == 0 then 0 else WORD)
    ensures Adds([sum] + rest, carry', [wa] + sa, [wb] + sb)
  {
    ValueCons(wa, sa);
    ValueCons(wb, sb);
    ValueCons(sum, rest);
    BaseSucc(|rest|);
    AddDigits(Base(|rest|), Value(sa), Value(sb), Value(rest), carry, wa, wb, sum, carry');
  }

  lemma AddDigits(weight: int, x: int, y: int, rest: int, c: nat, u: int, v: int, sum: int, c': nat)
    requires c <= 1 && c' <= 1
    requires rest + (if c == 0 then 0 else weight) == x + y
    requires u + v + c == sum + (if c' == 0 then 0 else WORD)
    ensures sum * weight + rest + (if c' == 0 then 0 else WORD * weight) == (u * weight + x) + (v * weight + y)
  {
    var carried := if c' == 0 then 0 else WORD;
    MulDistrib(weight, u, v);
    MulDistrib(weight, u + v, c);
    MulDistrib(weight, sum, carried);
    MulComm(weight, u);
    MulComm(weight, v);
    MulComm(weight, sum);
    MulComm(weight, carried);
  }

  lemma AddsValue(sum: seq<Word>, carry: Word, sa: seq<Word>, sb: seq<Word>)
    requires Adds(sum, carry, sa, sb)
    ensures Value(sum) + Carried(carry, |sum|) == Value(sa) + Value(sb)
  {}

  lemma FirstAndRest(s: seq<Word>, i: nat)
    requires i < |s|
    ensures s[i..] == [s[i]] + s[i + 1..]
  {}

  lemma NothingYet()
    ensures Value([]) == 0 && Carried(0, 0) == 0 && Carried(1, 0) == 1 && Adds([], 0, [], [])
  {}

  /** __builtin_add_overflow */
  method AddOverflow(x: Word, y: Word) returns (sum: Word, overflow: Word)
    ensures overflow <= 1 && x + y == sum + (if overflow == 0 then 0 else WORD)
  {
    sum := (x + y) % WORD;
    overflow := if x + y >= WORD then 1 else 0;
  }

  /** One word of the ripple: two additions into the same place, and the carry out of either. */
  method AddInto(out: array<Word>, p: nat, x: Word, y: Word, carry: Word) returns (newCarry: Word)
    requires p < out.Length && carry <= 1
    modifies out
    ensures out[..] == old(out[..])[p := out[p]]
    ensures newCarry <= 1 && x + y + carry == out[p] + (if newCarry == 0 then 0 else WORD)
  {
    var sum, first := AddOverflow(x, y);
    out[p] := sum;
    var total, second := AddOverflow(out[p], carry);
    out[p] := total;
    newCarry := if first == 1 || second == 1 then 1 else 0;
  }

  /** A buffer that held start, after the words of a run have been written from the right down to the i-th. */
  ghost function Partly(start: seq<Word>, done: seq<Word>, oo: nat, n: nat, i: nat): (r: seq<Word>)
    requires oo + n <= |start| && i <= n && |done| == n - i
    ensures |r| == |start|
  {
    start[..oo + i] + done + start[oo + n..]
  }

  /** The words to the left of those written and to the right of the run stay. */
  lemma Unwritten(start: seq<Word>, done: seq<Word>, oo: nat, n: nat, i: nat, k: nat)
    requires oo + n <= |start| && i <= n && |done| == n - i && k < |start|
    requires k < oo + i || oo + n <= k
    ensures Partly(start, done, oo, n, i)[k] == start[k]
  {}

  lemma WrittenLeft(start: seq<Word>, done: seq<Word>, oo: nat, n: nat, i: nat, w: Word)
    requires oo + n <= |start| && i < n && |done| == n - i - 1
    ensures Partly(start, done, oo, n, i + 1)[oo + i := w] == Partly(start, [w] + done, oo, n, i)
  {}

  lemma NoneWritten(start: seq<Word>, oo: nat, n: nat)
    requires oo + n <= |start|
    ensures Partly(start, [], oo, n, n) == start
  {}

  /** What the buffer holds then, inside the run and outside of it. */
  lemma PartsOf(start: seq<Word>, done: seq<Word>, oo: nat, n: nat, i: nat, now: seq<Word>)
    requires oo + n <= |start| && i <= n && |done| == n - i && now == Partly(start, done, oo, n, i)
    ensures now[..oo] == start[..oo] && now[oo + n..] == start[oo + n..]
    ensures now[oo..oo + n] == start[oo..oo + n][..i] + done
  {}

  /**
   uintnwords_add_o. The run written may be one of the runs read, or overlap it
   from above: words are read before anything is written over them.
   */
  method Add(n: nat, out: array<Word>, oo: nat, a: array<Word>, ao: nat, b: array<Word>, bo: nat)
    returns (carry: Word)
    requires Run(out, oo, n) && Run(a, ao, n) && Run(b, bo, n)
    requires a == out ==> ao <= oo || oo + n <= ao
    requires b == out ==> bo <= oo || oo + n <= bo
    modifies out
    ensures out[..oo] == old(out[..oo]) && out[oo + n..] == old(out[oo + n..])
    ensures carry <= 1
    ensures Value(out[oo..oo + n]) + Carried(carry, n) == Value(old(a[ao..ao + n])) + Value(old(b[bo..bo + n]))
  {
    hide Value, Carried, Base, Adds, Partly;
    carry := 0;
    ghost var start, sa, sb := out[..], a[ao..ao + n], b[bo..bo + n];
    ghost var done: seq<Word> := [];
    NothingYet();
    NoneWritten(start, oo, n);
    assert sa[n..] == [] && sb[n..] == [];
    var i := n;
    while i > 0
      invariant 0 <= i <= n && carry <= 1 && |done| == n - i
      invariant out[..] == Partly(start, done, oo, n, i)
      invariant Adds(done, carry, sa[i..], sb[i..])
    {
      i := i - 1;
      assert a[ao + i] == sa[i] by {
        if a == out { Unwritten(start, done, oo, n, i + 1, ao + i); }
      }
      assert b[bo + i] == sb[i] by {
        if b == out { Unwritten(start, done, oo, n, i + 1, bo + i); }
      }
      ghost var before := carry;
      carry := AddInto(out, oo + i, a[ao + i], b[bo + i], carry);
      WrittenLeft(start, done, oo, n, i, out[oo + i]);
      FirstAndRest(sa, i);
      FirstAndRest(sb, i);
      AddWord(sa[i + 1..], sb[i + 1..], done, before, sa[i], sb[i], out[oo + i], carry);
      done := [out[oo + i]] + done;
    }
    PartsOf(start, done, oo, n, 0, out[..]);
    assert sa[0..] == sa && sb[0..] == sb && out[oo..oo + n] == out[..][oo..oo + n] == done;
    AddsValue(done, carry, sa, sb);
  }

  // ---- successor and negation -------------------------------------------------------------------

  /** How many words of a run uintnwords_succ_o leaves unwritten: those to the left of the last one with room. */
  function Unreached(s: seq<Word>): (i: nat)
    ensures i <= |s|
  {
    if s == [] then 0 else
      var last := |s| - 1;
      if s[last] == WORD - 1 then Unreached(s[..last]) else last
  }

  /** The words reached are one more than those of s, the others are what they were. */
  ghost predicate Succeeded(was: seq<Word>, s: seq<Word>, after: seq<Word>, carry: Word)
    requires |was| == |s| == |after|
  {
    var i := Unreached(s);
    && after[..i] == was[..i] && carry <= 1 && (carry == 1 ==> i == 0)
    && Value(after[i..]) + Carried(carry, |s| - i) == Value(s[i..]) + 1
  }

  /** All words from the i-th on have been reached, and those to the left of it will be while there is a carry. */
  ghost predicate ReachedTo(s: seq<Word>, i: nat, carry: Word)
    requires i <= |s|
  {
    Unreached(s) == if carry == 1 then Unreached(s[..i]) else i
  }

  lemma NextReached(s: seq<Word>, i: nat, overflow: Word)
    requires i < |s| && overflow <= 1 && ReachedTo(s, i + 1, 1) && (overflow == 1 <==> s[i] == WORD - 1)
    ensures ReachedTo(s, i, overflow)
  {
    assert s[..i + 1][..i] == s[..i];
  }

  lemma AllReached(s: seq<Word>, i: nat, carry: Word)
    requires i <= |s| && ReachedTo(s, i, carry) && (carry == 1 ==> i == 0)
    ensures Unreached(s) == i
  {}

  lemma Written(was: seq<Word>, s: seq<Word>, i: nat, done: seq<Word>, carry: Word)
    requires |was| == |s| && Unreached(s) == i && |done| == |s| - i && carry <= 1 && (carry == 1 ==> i == 0)
    requires Value(done) + Carried(carry, |s| - i) == Value(s[i..]) + 1
    ensures Succeeded(was, s, was[..i] + done, carry)
  {}

  /** uintnwords_succ_o. It stops at the first word without a carry, and writes no word to the left of it. */
  method Succ(n: nat, out: array<Word>, oo: nat, a: array<Word>, ao: nat) returns (carry: Word)
    requires Run(out, oo, n) && Run(a, ao, n)
    requires a == out ==> ao <= oo || oo + n <= ao
    modifies out
    ensures out[..oo] == old(out[..oo]) && out[oo + n..] == old(out[oo + n..])
    ensures Succeeded(old(out[oo..oo + n]), old(a[ao..ao + n]), out[oo..oo + n], carry)
  {
    hide Value, Carried, Base, Unreached, Succeeded, Partly;
    carry := 1;
    ghost var start, s := out[..], a[ao..ao + n];
    ghost var done: seq<Word> := [];
    NothingYet();
    NoneWritten(start, oo, n);
    assert s[n..] == [] && s[..n] == s;
    assert ReachedTo(s, n, 1);
    var i := n;
    while carry == 1 && i > 0
      invariant 0 <= i <= n && carry <= 1 && |done| == n - i
      invariant out[..] == Partly(start, done, oo, n, i)
      invariant Value(done) + Carried(carry, n - i) == Value(s[i..]) + 1
      invariant ReachedTo(s, i, carry)
    {
      i := i - 1;
      assert a[ao + i] == s[i] by {
        if a == out { Unwritten(start, done, oo, n, i + 1, ao + i); }
      }
      var sum, overflow := AddOverflow(a[ao + i], 1);
      out[oo + i] := sum;
      WrittenLeft(start, done, oo, n, i, sum);
      FirstAndRest(s, i);
      SuccWord(s[i + 1..], done, s[i], sum, overflow);
      NextReached(s, i, overflow);
      done := [sum] + done;
      carry := overflow;
    }
    AllReached(s, i, carry);
    PartsOf(start, done, oo, n, i, out[..]);
    assert out[oo..oo + n] == out[..][oo..oo + n];
    Written(start[oo..oo + n], s, i, done, carry);
  }

  /**
   The output is the successor if and only if the words that are not written stood there
   already: always in place, but into another buffer only by what the buffer held before.
   */
  lemma SuccessorExactly(was: seq<Word>, s: seq<Word>, after: seq<Word>, carry: Word)
    requires |was| == |s| == |after| && Succeeded(was, s, after, carry)
    ensures Value(after) + Carried(carry, |s|) == Value(s) + 1 <==> was[..Unreached(s)] == s[..Unreached(s)]
  {
    hide Value, Base;
    var i := Unreached(s);
    assert after == after[..i] + after[i..] && s == s[..i] + s[i..];
    ValueConcat(after[..i], after[i..]);
    ValueConcat(s[..i], s[i..]);
    if carry == 0 {
      SameHighDigits(Value(was[..i]), Value(s[..i]), Base(|s| - i));
      if Value(was[..i]) == Value(s[..i]) {
        SameValue(was[..i], s[..i]);
      }
    }
  }

  lemma SameHighDigits(x: int, y: int, weight: int)
    requires 1 <= weight
    ensures x * weight == y * weight <==> x == y
  {
    if x < y {
      LowerDigits(x, y, weight, 0, 0);
    } else if y < x {
      LowerDigits(y, x, weight, 0, 0);
    }
  }

  lemma {:induction false} SameValue(s: seq<Word>, t: seq<Word>)
    requires |s| == |t| && Value(s) == Value(t)
    ensures s == t
  {
    if s != [] {
      var n := |s| - 1;
      SameValue(s[..n], t[..n]);
      assert s == s[..n] + [s[n]] && t == t[..n] + [t[n]];
    }
  }

  lemma SuccWord(s: seq<Word>, rest: seq<Word>, w: Word, sum: Word, overflow: Word)
    requires |s| == |rest| && overflow <= 1
    requires Value(rest) + Carried(1, |rest|) == Value(s) + 1
    requires w + 1 == sum + (if overflow == 0 then 0 else WORD)
    ensures Value([sum] + rest) + Carried(overflow, |rest| + 1) == Value([w] + s) + 1
  {
    hide Value, Base;
    ValueCons(w, s);
    ValueCons(sum, rest);
    BaseSucc(|rest|);
    AddDigits(Base(|rest|), Value(s), 1, Value(rest), 1, w, 0, sum, overflow);
  }

  function Complement(s: seq<Word>): (r: seq<Word>)
    ensures |r| == |s|
  {
    seq(|s|, i requires 0 <= i < |s| => WORD - 1 - s[i])
  }

  lemma {:induction false} ComplementValue(s: seq<Word>)
    ensures Value(Complement(s)) == Base(|s|) - 1 - Value(s)
  {
    if s != [] {
      var n := |s| - 1;
      ComplementValue(s[..n]);
      assert Complement(s)[..n] == Complement(s[..n]);
      BaseSucc(n);
    }
  }

  /** Two's complement: the number that adds up with v to a multiple of Base(n). */
  function Negated(v: nat, n: nat): (r: int)
    ensures v < Base(n) ==> 0 <= r < Base(n)
  {
    if v == 0 then 0 else Base(n) - v
  }

  method ComplementInto(n: nat, out: array<Word>, oo: nat, a: array<Word>, ao: nat)
    requires Run(out, oo, n) && Run(a, ao, n)
    requires a == out ==> oo <= ao || ao + n <= oo
    modifies out
    ensures out[..oo] == old(out[..oo]) && out[oo + n..] == old(out[oo + n..])
    ensures out[oo..oo + n] == Complement(old(a[ao..ao + n]))
  {
    ghost var s := a[ao..ao + n];
    for i := 0 to n
      invariant forall k :: 0 <= k < out.Length && !(oo <= k < oo + i) ==> out[k] == old(out[k])
      invariant forall k :: oo <= k < oo + i ==> out[k] == WORD - 1 - s[k - oo]
    {
      assert a[ao + i] == s[i];
      out[oo + i] := WORD - 1 - a[ao + i];
    }
  }

  /** uintnwords_negate_o. The run written may overlap the run read only from below. */
  method Negate(n: nat, out: array<Word>, oo: nat, a: array<Word>, ao: nat)
    requires Run(out, oo, n) && Run(a, ao, n)
    requires a == out ==> oo <= ao || ao + n <= oo
    modifies out
    ensures out[..oo] == old(out[..oo]) && out[oo + n..] == old(out[oo + n..])
    ensures Value(out[oo..oo + n]) == Negated(Value(old(a[ao..ao + n])), n)
  {
    hide Value, Base;
    ghost var s := a[ao..ao + n];
    ComplementInto(n, out, oo, a, ao);
    ComplementValue(s);
    ghost var complement := out[oo..oo + n];
    var carry := Succ(n, out, oo, out, oo);
    SuccessorExactly(complement, complement, out[oo..oo + n], carry);
    ValueBound(out[oo..oo + n]);
  }

  // ---- comparison ---------------------------------------------------------------------------------

  /** uintnwords_cmp */
  method Compare(n: nat, a: array<Word>, ao: nat, b: array<Word>, bo: nat) returns (r: int)
    requires Run(a, ao, n) && Run(b, bo, n)
    ensures r == (
      if Value(a[ao..ao + n]) < Value(b[bo..bo + n]) then -1
      else if Value(a[ao..ao + n]) > Value(b[bo..bo + n]) then 1 else 0)
    ensures r == 0 <==> a[ao..ao + n] == b[bo..bo + n]
  {
    ghost var s, t := a[ao..ao + n], b[bo..bo + n];
    for i := 0 to n
      invariant s[..i] == t[..i]
    {
      assert a[ao + i] == s[i] && b[bo + i] == t[i];
      if a[ao + i] < b[bo + i] {
        FirstDifference(s, t, i);
        return -1;
      }
      if a[ao + i] > b[bo + i] {
        FirstDifference(t, s, i);
        return 1;
      }
    }
    assert s[..n] == s && t[..n] == t;
    r := 0;
  }

  method LessOrEqual(n: nat, a: array<Word>, ao: nat, b: array<Word>, bo: nat) returns (r: bool)
    requires Run(a, ao, n) && Run(b, bo, n)
    ensures r <==> Value(a[ao..ao + n]) <= Value(b[bo..bo + n])
  {
    var c := Compare(n, a, ao, b, bo);
    r := c <= 0;
  }
}
