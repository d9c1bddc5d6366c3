/**
 The hash index of uthash.h, as the ballot box uses it: elements are linked in the
 order of their addition, and in a doubly linked chain per bucket; buckets double
 when a chain grows too long.

 Ghost sequences say what is linked: `order` for the list of all elements, `chains`
 for the buckets. The integrity check of the source (HASH_FSCK) is the invariant.
 */
module HashIndex {
  import opened Arithmetic

  class Elem<V> {
    const key: string
    const hashv: nat
    const value: V
    var next: Elem?<V>
    var prev: Elem?<V>
    var hhNext: Elem?<V>
    var hhPrev: Elem?<V>

    constructor (key: string, hashv: nat, value: V)
      ensures this.key == key && this.hashv == hashv && this.value == value
    {
      this.key, this.hashv, this.value := key, hashv, value;
      next, prev, hhNext, hhPrev := null, null, null, null;
    }
  }

  // ---- doubly linked lists ------------------------------------------------------------------

  function At<V>(s: seq<Elem<V>>, i: int): Elem?<V> {
    if 0 <= i < |s| then s[i] else null
  }

  function Without<V>(s: seq<V>, i: nat): seq<V>
    requires i < |s|
  {
    s[..i] + s[i + 1..]
  }

  lemma AtWithout<V>(s: seq<Elem<V>>, i: nat, k: int)
    requires i < |s|
    ensures At(Without(s, i), k) == if k < i then At(s, k) else At(s, k + 1)
  {}

  ghost predicate Distinct<V>(s: seq<Elem<V>>) {
    forall i, j :: 0 <= i < j < |s| ==> s[i] != s[j]
  }

  lemma DistinctWithout<V>(s: seq<Elem<V>>, i: nat)
    requires Distinct(s) && i < |s|
    ensures Distinct(Without(s, i)) && |Without(s, i)| == |s| - 1
  {}

  /** The elements of a bucket, linked both ways. */
  ghost predicate Chain<V>(s: seq<Elem<V>>)
    reads s`hhNext, s`hhPrev
  {
    forall i :: 0 <= i < |s| ==> s[i].hhNext == At(s, i + 1) && s[i].hhPrev == At(s, i - 1)
  }

  /** A chain as far as it can be walked forward. */
  ghost predicate Forward<V>(s: seq<Elem<V>>)
    reads s`hhNext
  {
    forall i :: 0 <= i < |s| ==> s[i].hhNext == At(s, i + 1)
  }

  /** All elements in order of addition, linked both ways. */
  ghost predicate AppList<V>(s: seq<Elem<V>>)
    reads s`next, s`prev
  {
    forall i :: 0 <= i < |s| ==> s[i].next == At(s, i + 1) && s[i].prev == At(s, i - 1)
  }

  method PushChain<V>(head: Elem?<V>, add: Elem<V>, ghost s: seq<Elem<V>>)
    requires Distinct(s) && Chain(s) && head == At(s, 0) && add !in s
    modifies add`hhNext, add`hhPrev, s`hhPrev
    ensures Chain([add] + s) && Distinct([add] + s)
  {
    add.hhNext := head;
    add.hhPrev := null;
    if head != null {
      head.hhPrev := add;
    }
  }

  /** No other place holds the same element. */
  lemma OnlyAt<V>(s: seq<Elem<V>>, i: int)
    requires Distinct(s)
    ensures At(s, i) != null <==> 0 <= i < |s|
    ensures At(s, i) != null ==> At(s, i) in s
    ensures forall k :: 0 <= k < |s| ==> (s[k] == At(s, i) <==> k == i)
  {}

  /** The links of s, but for those around the i-th element, which pass it by. */
  ghost predicate PassesBy<V>(s: seq<Elem<V>>, i: nat)
    reads s`hhNext, s`hhPrev
  {
    forall k :: 0 <= k < |s| && k != i ==>
      && s[k].hhNext == (if k + 1 == i then At(s, i + 1) else At(s, k + 1))
      && s[k].hhPrev == (if k == i + 1 then At(s, i - 1) else At(s, k - 1))
  }

  lemma ChainWithout<V>(s: seq<Elem<V>>, i: nat)
    requires i < |s| && PassesBy(s, i)
    ensures Chain(Without(s, i))
  {
    var t := Without(s, i);
    forall k | 0 <= k < |t| ensures t[k].hhNext == At(t, k + 1) && t[k].hhPrev == At(t, k - 1) {
      AtWithout(s, i, k);
      AtWithout(s, i, k + 1);
      AtWithout(s, i, k - 1);
    }
  }

  method UnlinkChain<V>(del: Elem<V>, ghost s: seq<Elem<V>>, ghost i: nat)
    requires Distinct(s) && Chain(s) && i < |s| && s[i] == del
    modifies s`hhNext, s`hhPrev
    ensures Chain(Without(s, i)) && Distinct(Without(s, i))
  {
    hide Without;
    DistinctWithout(s, i);
    OnlyAt(s, i - 1);
    OnlyAt(s, i + 1);
    assert del.hhNext == At(s, i + 1) && del.hhPrev == At(s, i - 1);
    hide Distinct, At;
    if del.hhPrev != null {
      del.hhPrev.hhNext := del.hhNext;
    }
    if del.hhNext != null {
      del.hhNext.hhPrev := del.hhPrev;
    }
    assert PassesBy(s, i);
    hide Chain;
    ChainWithout(s, i);
  }

  /** HASH_APPEND_LIST */
  method AppendList<V>(tail: Elem<V>, add: Elem<V>, ghost s: seq<Elem<V>>)
    requires Distinct(s) && AppList(s) && s != [] && tail == s[|s| - 1] && add !in s
    modifies add`next, add`prev, tail`next
    ensures AppList(s + [add]) && Distinct(s + [add])
  {
    add.next := null;
    add.prev := tail;
    tail.next := add;
    ghost var t := s + [add];
    DistinctAppended(s, add);
    var n := |s| - 1;
    assert t[n] == tail && t[n + 1] == add;
    forall k | 0 <= k < |t| ensures t[k].next == At(t, k + 1) && t[k].prev == At(t, k - 1) {
      if k < n {
        assert t[k] == s[k] && s[k] != s[n] && t[k + 1] == s[k + 1];
      }
    }
  }

  lemma DistinctAppended<V>(s: seq<Elem<V>>, add: Elem<V>)
    requires Distinct(s) && add !in s
    ensures Distinct(s + [add])
  {}

  method UnlinkList<V>(del: Elem<V>, ghost s: seq<Elem<V>>, ghost i: nat)
    requires Distinct(s) && AppList(s) && i < |s| && s[i] == del
    modifies s`next, s`prev
    ensures AppList(Without(s, i)) && Distinct(Without(s, i))
  {
    if del.prev != null {
      del.prev.next := del.next;
    }
    if del.next != null {
      del.next.prev := del.prev;
    }
    ghost var t := Without(s, i);
    DistinctWithout(s, i);
    forall k | 0 <= k < |t| ensures t[k].next == At(t, k + 1) && t[k].prev == At(t, k - 1) {
      AtWithout(s, i, k);
      AtWithout(s, i, k + 1);
      AtWithout(s, i, k - 1);
    }
  }

  // ---- buckets --------------------------------------------------------------------------------

  datatype Bucket<V> = Bucket(count: nat, expandMult: nat, head: Elem?<V>)

  ghost function Elems<V>(chains: seq<seq<Elem<V>>>): set<Elem<V>> {
    set b, e | 0 <= b < |chains| && e in chains[b] :: e
  }

  ghost predicate BucketOk<V>(bucket: Bucket<V>, chain: seq<Elem<V>>, b: nat, buckets: nat)
    reads chain`hhNext, chain`hhPrev
  {
    && 0 < buckets && Chain(chain) && Distinct(chain)
    && bucket.count == |chain| && bucket.head == At(chain, 0)
    && forall e :: e in chain ==> e.hashv % buckets == b
  }

  /** Every bucket's head and count are those of its chain, and its elements belong there. */
  ghost predicate BucketsOk<V>(buckets: seq<Bucket<V>>, chains: seq<seq<Elem<V>>>)
    reads Elems(chains)`hhNext, Elems(chains)`hhPrev
  {
    && |buckets| == |chains| && 0 < |buckets|
    && forall b :: 0 <= b < |buckets| ==> (InElems(chains, b); BucketOk(buckets[b], chains[b], b, |buckets|))
  }

  lemma InElems<V>(chains: seq<seq<Elem<V>>>, b: nat)
    requires b < |chains|
    ensures forall e :: e in chains[b] ==> e in Elems(chains)
  {}

  ghost function TotalLength<V>(chains: seq<seq<Elem<V>>>): nat {
    if chains == [] then 0 else TotalLength(chains[..|chains| - 1]) + |chains[|chains| - 1]|
  }

  lemma {:induction false} LongerChain<V>(chains: seq<seq<Elem<V>>>, b: nat, chain: seq<Elem<V>>)
    requires b < |chains|
    ensures TotalLength(chains[b := chain]) == TotalLength(chains) - |chains[b]| + |chain|
  {
    var n := |chains| - 1;
    if b < n {
      LongerChain(chains[..n], b, chain);
      assert chains[b := chain][..n] == chains[..n][b := chain];
    } else {
      assert chains[b := chain][..n] == chains[..n];
    }
  }

  /** An element goes to the head of its bucket's chain. */
  method AddHead<V>(buckets: seq<Bucket<V>>, add: Elem<V>, expandMult: nat, ghost chains: seq<seq<Elem<V>>>)
    returns (r: seq<Bucket<V>>, ghost rc: seq<seq<Elem<V>>>)
    requires BucketsOk(buckets, chains) && add !in Elems(chains)
    modifies add`hhNext, add`hhPrev, Elems(chains)`hhPrev
    ensures BucketsOk(r, rc) && |r| == |buckets|
    ensures
      var b := add.hashv % |buckets|;
      && rc == chains[b := [add] + chains[b]]
      && r == buckets[b := Bucket(buckets[b].count + 1, expandMult, add)]
  {
    var b := add.hashv % |buckets|;
    InElems(chains, b);
    assert BucketOk(buckets[b], chains[b], b, |buckets|);
    OthersApart(buckets, add, chains, b);
    rc := chains[b := [add] + chains[b]];
    r := buckets[b := Bucket(buckets[b].count + 1, expandMult, add)];
    PushChain(buckets[b].head, add, chains[b]);
    forall c | 0 <= c < |r| ensures BucketOk(r[c], rc[c], c, |r|) {
      if c != b {
        assert old(BucketOk(buckets[c], chains[c], c, |buckets|));
        forall i | 0 <= i < |chains[c]|
          ensures chains[c][i].hhNext == At(chains[c], i + 1) && chains[c][i].hhPrev == At(chains[c], i - 1)
        {
          assert chains[c][i] in chains[c];
        }
      }
    }
  }

  /** The other chains hold neither the new element nor any of its bucket's. */
  lemma OthersApart<V>(buckets: seq<Bucket<V>>, add: Elem<V>, chains: seq<seq<Elem<V>>>, b: nat)
    requires BucketsOk(buckets, chains) && add !in Elems(chains) && b < |chains|
    ensures forall c, e :: 0 <= c < |chains| && c != b && e in chains[c] ==> e != add && e !in chains[b]
  {
    forall c, e | 0 <= c < |chains| && c != b && e in chains[c] ensures e != add && e !in chains[b] {
      assert BucketOk(buckets[c], chains[c], c, |buckets|) && BucketOk(buckets[b], chains[b], b, |buckets|);
      assert e in Elems(chains);
    }
  }

  // ---- HASH_EXPAND_BUCKETS ----------------------------------------------------------------------

  /** The number of elements that lie deeper in their bucket than the ideal chain length. */
  function Excess<V>(buckets: seq<Bucket<V>>, ideal: nat): nat {
    if buckets == [] then 0 else
      var last := buckets[|buckets| - 1].count;
      Excess(buckets[..|buckets| - 1], ideal) + if last > ideal then last - ideal else 0
  }

  lemma {:induction false} ExcessUpdated<V>(buckets: seq<Bucket<V>>, ideal: nat, b: nat, bucket: Bucket<V>)
    requires b < |buckets|
    ensures
      var was, now := buckets[b].count, bucket.count;
      Excess(buckets[b := bucket], ideal)
        == Excess(buckets, ideal) - (if was > ideal then was - ideal else 0) + if now > ideal then now - ideal else 0
  {
    var n := |buckets| - 1;
    if b < n {
      ExcessUpdated(buckets[..n], ideal, b, bucket);
      assert buckets[b := bucket][..n] == buckets[..n][b := bucket];
    } else {
      assert buckets[b := bucket][..n] == buckets[..n];
    }
  }

  ghost function Members<V>(s: seq<Elem<V>>): set<Elem<V>> {
    set e | e in s
  }

  lemma ElemsGrow<V>(chains: seq<seq<Elem<V>>>, b: nat, add: Elem<V>)
    requires b < |chains|
    ensures Elems(chains[b := [add] + chains[b]]) == Elems(chains) + {add}
  {
    var rc := chains[b := [add] + chains[b]];
    forall e | e in Elems(chains) + {add} ensures e in Elems(rc) {
      if e == add {
        assert rc[b][0] == add && add in rc[b];
      } else {
        var c :| 0 <= c < |chains| && e in chains[c];
        assert e in rc[c];
      }
    }
  }

  lemma SameShape<V>(buckets: seq<Bucket<V>>, chains: seq<seq<Elem<V>>>)
    requires BucketsOk(buckets, chains)
    ensures |buckets| == |chains| > 0
    ensures forall b :: 0 <= b < |buckets| ==> BucketOk(buckets[b], chains[b], b, |buckets|)
  {
    forall b | 0 <= b < |buckets| ensures BucketOk(buckets[b], chains[b], b, |buckets|) {
      InElems(chains, b);
    }
  }

  lemma MembersGrow<V>(chain: seq<Elem<V>>, i: nat)
    requires i < |chain| && Distinct(chain)
    ensures Members(chain[..i + 1]) == Members(chain[..i]) + {chain[i]} && chain[i] !in Members(chain[..i])
  {
    assert chain[..i + 1] == chain[..i] + [chain[i]];
  }

  /** One element moves to the head of its new bucket. */
  method MoveOne<V>(thh: Elem<V>, buckets: seq<Bucket<V>>, ideal: nat, nonideal: nat, ghost chains: seq<seq<Elem<V>>>)
    returns (r: seq<Bucket<V>>, deep: nat, ghost rc: seq<seq<Elem<V>>>)
    requires BucketsOk(buckets, chains) && thh !in Elems(chains) && nonideal == Excess(buckets, ideal)
    modifies thh`hhNext, thh`hhPrev, Elems(chains)`hhPrev
    ensures BucketsOk(r, rc) && |r| == |buckets| && deep == Excess(r, ideal)
    ensures Elems(rc) == Elems(chains) + {thh} && TotalLength(rc) == TotalLength(chains) + 1
  {
    hide BucketsOk, Elems, TotalLength, Excess;
    SameShape(buckets, chains);
    deep := nonideal;
    var b := thh.hashv % |buckets|;
    var newbkt := buckets[b];
    var expandMult := newbkt.expandMult;
    if newbkt.count + 1 > ideal {
      deep := deep + 1;
      if newbkt.count + 1 > expandMult * ideal {
        expandMult := expandMult + 1;
      }
    }
    r, rc := AddHead(buckets, thh, expandMult, chains);
    ExcessUpdated(buckets, ideal, b, r[b]);
    LongerChain(chains, b, rc[b]);
    ElemsGrow(chains, b, thh);
  }

  /** The elements of an old bucket move, first to last, to the heads of their new buckets. */
  method MoveChain<V>(first: Elem?<V>, buckets: seq<Bucket<V>>, ideal: nat, nonideal: nat,
                      ghost chain: seq<Elem<V>>, ghost chains: seq<seq<Elem<V>>>)
    returns (r: seq<Bucket<V>>, deep: nat, ghost rc: seq<seq<Elem<V>>>)
    requires BucketsOk(buckets, chains) && Distinct(chain) && Forward(chain) && first == At(chain, 0)
    requires nonideal == Excess(buckets, ideal)
    requires forall e :: e in chain ==> e !in Elems(chains)
    modifies chain`hhNext, chain`hhPrev, Elems(chains)`hhPrev
    ensures BucketsOk(r, rc) && |r| == |buckets| && deep == Excess(r, ideal)
    ensures Elems(rc) == Elems(chains) + Members(chain)
    ensures TotalLength(rc) == TotalLength(chains) + |chain|
  {
    hide BucketsOk, Elems, TotalLength, Excess;
    var thh := first;
    r, deep, rc := buckets, nonideal, chains;
    ghost var i := 0;
    while thh != null
      invariant 0 <= i <= |chain| && thh == At(chain, i)
      invariant BucketsOk(r, rc) && |r| == |buckets| && deep == Excess(r, ideal)
      invariant forall k :: i <= k < |chain| ==> chain[k].hhNext == At(chain, k + 1)
      invariant Elems(rc) == Elems(chains) + Members(chain[..i])
      invariant TotalLength(rc) == TotalLength(chains) + i
      decreases |chain| - i
    {
      var nxt := thh.hhNext;
      assert thh == chain[i];
      MembersGrow(chain, i);
      r, deep, rc := MoveOne(thh, r, ideal, deep, rc);
      thh := nxt;
      i := i + 1;
    }
    assert chain[..i] == chain;
  }

  function NewBuckets<V>(n: nat): seq<Bucket<V>> {
    seq(n, (_: nat) => Bucket(0, 0, null))
  }

  ghost function NewChains<V>(n: nat): seq<seq<Elem<V>>> {
    seq(n, (_: nat) => [])
  }

  lemma {:induction false} EmptyBuckets<V>(n: nat, ideal: nat)
    ensures n > 0 ==> BucketsOk(NewBuckets<V>(n), NewChains<V>(n))
    ensures |NewBuckets<V>(n)| == n && Elems(NewChains<V>(n)) == {} && TotalLength(NewChains<V>(n)) == 0 && Excess(NewBuckets<V>(n), ideal) == 0
  {
    if n > 0 {
      EmptyBuckets<V>(n - 1, ideal);
      assert NewBuckets<V>(n)[..n - 1] == NewBuckets<V>(n - 1);
      assert NewChains<V>(n)[..n - 1] == NewChains<V>(n - 1);
    }
  }

  /** Every element is in the bucket its hash value selects. */
  ghost predicate Placed<V>(chains: seq<seq<Elem<V>>>) {
    var n := |chains|;
    n > 0 && forall b, e :: 0 <= b < n && e in chains[b] ==> e.hashv % n == b
  }

  lemma PlacedApart<V>(chains: seq<seq<Elem<V>>>, c: nat, d: nat, e: Elem<V>)
    requires Placed(chains) && c < |chains| && d < |chains| && c != d && e in chains[c]
    ensures e !in chains[d]
  {
    assert e.hashv % |chains| == c;
  }

  lemma ElemsPrefix<V>(chains: seq<seq<Elem<V>>>, b: nat)
    requires Placed(chains) && b < |chains|
    ensures Elems(chains[..b + 1]) == Elems(chains[..b]) + Members(chains[b])
    ensures forall e :: e in chains[b] ==> e !in Elems(chains[..b])
    ensures forall c, e :: b < c < |chains| && e in chains[c] ==> e !in chains[b]
    ensures TotalLength(chains[..b + 1]) == TotalLength(chains[..b]) + |chains[b]|
    ensures Elems(chains[..b]) <= Elems(chains) && Members(chains[b]) <= Elems(chains)
  {
    assert chains[..b + 1][..b] == chains[..b];
    forall c, e | 0 <= c < |chains| && c != b && e in chains[c] ensures e !in chains[b] {
      PlacedApart(chains, c, b, e);
    }
    forall e | e in Elems(chains[..b]) ensures e !in chains[b] {
      var c :| 0 <= c < b && e in chains[..b][c];
      assert e in chains[c];
    }
    forall e | e in Members(chains[b]) ensures e in Elems(chains[..b + 1]) {
      assert e in chains[..b + 1][b];
    }
    forall e | e in Elems(chains[..b]) ensures e in Elems(chains[..b + 1]) {
      var c :| 0 <= c < b && e in chains[..b][c];
      assert e in chains[..b + 1][c] && e in chains[c];
    }
    forall e | e in Elems(chains[..b]) ensures e in Elems(chains) {
      var c :| 0 <= c < b && e in chains[..b][c];
      assert e in chains[c];
    }
  }

  lemma NoElems<V>(chains: seq<seq<Elem<V>>>)
    ensures Elems(chains[..0]) == {} && TotalLength(chains[..0]) == 0
  {}

  lemma CanBeWalked<V>(buckets: seq<Bucket<V>>, chains: seq<seq<Elem<V>>>)
    requires BucketsOk(buckets, chains)
    ensures |buckets| == |chains| > 0
    ensures forall c :: 0 <= c < |chains| ==>
      Forward(chains[c]) && Distinct(chains[c]) && buckets[c].head == At(chains[c], 0)
  {
    SameShape(buckets, chains);
    forall c | 0 <= c < |chains|
      ensures Forward(chains[c]) && Distinct(chains[c]) && buckets[c].head == At(chains[c], 0)
    {
      assert BucketOk(buckets[c], chains[c], c, |buckets|);
    }
  }

  lemma AllPlaced<V>(buckets: seq<Bucket<V>>, chains: seq<seq<Elem<V>>>)
    requires BucketsOk(buckets, chains)
    ensures Placed(chains)
  {
    SameShape(buckets, chains);
  }

  /** Twice as many buckets, with every element in the one where it is now looked for. */
  method ExpandBuckets<V>(buckets: seq<Bucket<V>>, ideal: nat, ghost chains: seq<seq<Elem<V>>>)
    returns (r: seq<Bucket<V>>, nonideal: nat, ghost rc: seq<seq<Elem<V>>>)
    requires BucketsOk(buckets, chains)
    modifies Elems(chains)`hhNext, Elems(chains)`hhPrev
    ensures BucketsOk(r, rc) && |r| == 2 * |buckets| && nonideal == Excess(r, ideal)
    ensures Elems(rc) == Elems(chains) && TotalLength(rc) == TotalLength(chains)
  {
    hide BucketsOk, Elems, TotalLength, Excess, Placed, Forward, Distinct, NewBuckets, NewChains;
    AllPlaced(buckets, chains);
    CanBeWalked(buckets, chains);
    EmptyBuckets<V>(2 * |buckets|, ideal);
    r := NewBuckets<V>(2 * |buckets|);
    rc := NewChains<V>(2 * |buckets|);
    nonideal := 0;
    var b := 0;
    NoElems(chains);
    while b < |buckets|
      invariant 0 <= b <= |buckets| && BucketsOk(r, rc) && |r| == 2 * |buckets| && nonideal == Excess(r, ideal)
      invariant Elems(rc) == Elems(chains[..b]) && TotalLength(rc) == TotalLength(chains[..b])
      invariant forall c :: b <= c < |chains| ==> Forward(chains[c])
    {
      ElemsPrefix(chains, b);
      r, nonideal, rc := MoveChain(buckets[b].head, r, ideal, nonideal, chains[b], rc);
      b := b + 1;
    }
    assert chains[..b] == chains;
  }

  // ---- HASH_DEL_IN_BKT --------------------------------------------------------------------------

  method DelInBucket<V>(buckets: seq<Bucket<V>>, del: Elem<V>, ghost chains: seq<seq<Elem<V>>>)
    returns (r: seq<Bucket<V>>, ghost rc: seq<seq<Elem<V>>>)
    requires BucketsOk(buckets, chains) && del in Elems(chains)
    modifies Elems(chains)`hhNext, Elems(chains)`hhPrev
    ensures BucketsOk(r, rc) && |r| == |buckets|
    ensures Elems(rc) == Elems(chains) - {del} && TotalLength(rc) == TotalLength(chains) - 1
  {
    SameShape(buckets, chains);
    ghost var i := PlaceOf(buckets, chains, del);
    var b := del.hashv % |buckets|;
    ghost var shorter := Without(chains[b], i);
    rc := chains[b := shorter];
    r := buckets[b := Bucket(buckets[b].count - 1, buckets[b].expandMult,
                             if buckets[b].head == del then del.hhNext else buckets[b].head)];
    LongerChain(chains, b, shorter);
    AllPlaced(buckets, chains);
    ElemsShrink(chains, b, i);
    InElems(chains, b);
    UnlinkChain(del, chains[b], i);
    forall c | 0 <= c < |r| ensures BucketOk(r[c], rc[c], c, |r|) {
      if c != b {
        assert old(BucketOk(buckets[c], chains[c], c, |buckets|));
        forall k | 0 <= k < |chains[c]|
          ensures chains[c][k].hhNext == At(chains[c], k + 1) && chains[c][k].hhPrev == At(chains[c], k - 1)
        {
          assert chains[c][k] in chains[c];
        }
      }
    }
  }

  /** Where in its chain an element is. */
  lemma PlaceOf<V>(buckets: seq<Bucket<V>>, chains: seq<seq<Elem<V>>>, del: Elem<V>) returns (i: nat)
    requires BucketsOk(buckets, chains) && del in Elems(chains)
    ensures
      var b := del.hashv % |buckets|;
      b < |chains| && i < |chains[b]| && chains[b][i] == del && del in chains[b]
  {
    SameShape(buckets, chains);
    var c :| 0 <= c < |chains| && del in chains[c];
    assert BucketOk(buckets[c], chains[c], c, |buckets|);
    i :| 0 <= i < |chains[c]| && chains[c][i] == del;
  }

  lemma OthersStay<V>(s: seq<Elem<V>>, i: nat, e: Elem<V>)
    requires i < |s| && e in s && e != s[i]
    ensures e in Without(s, i)
  {
    var k :| 0 <= k < |s| && s[k] == e;
    if k < i {
      assert e in s[..i];
    } else {
      assert s[i + 1..][k - i - 1] == e;
    }
  }

  lemma NotLeft<V>(s: seq<Elem<V>>, i: nat, e: Elem<V>)
    requires Distinct(s) && i < |s| && e in Without(s, i)
    ensures e in s && e != s[i]
  {
    var k :| 0 <= k < |s| - 1 && Without(s, i)[k] == e;
    assert e == s[if k < i then k else k + 1];
  }

  lemma ShrunkElem<V>(chains: seq<seq<Elem<V>>>, b: nat, i: nat, e: Elem<V>)
    requires Placed(chains) && b < |chains| && Distinct(chains[b]) && i < |chains[b]|
    ensures e in Elems(chains[b := Without(chains[b], i)]) <==> e in Elems(chains) && e != chains[b][i]
  {
    hide Distinct;
    var rc := chains[b := Without(chains[b], i)];
    if e in Elems(chains) && e != chains[b][i] {
      var c :| 0 <= c < |chains| && e in chains[c];
      if c == b {
        OthersStay(chains[b], i, e);
      }
      assert e in rc[c];
    }
    if e in Elems(rc) {
      var c :| 0 <= c < |rc| && e in rc[c];
      if c == b {
        NotLeft(chains[b], i, e);
      } else if e == chains[b][i] {
        PlacedApart(chains, c, b, e);
      }
      assert e in chains[c];
    }
  }

  lemma ElemsShrink<V>(chains: seq<seq<Elem<V>>>, b: nat, i: nat)
    requires Placed(chains) && b < |chains| && Distinct(chains[b]) && i < |chains[b]|
    ensures Elems(chains[b := Without(chains[b], i)]) == Elems(chains) - {chains[b][i]}
    ensures forall c, e :: 0 <= c < |chains| && c != b && e in chains[c] ==> e !in chains[b]
  {
    forall c, e | 0 <= c < |chains| && c != b && e in chains[c] ensures e !in chains[b] {
      PlacedApart(chains, c, b, e);
    }
    var rc, del := chains[b := Without(chains[b], i)], chains[b][i];
    forall e | e in Elems(chains) && e != del ensures e in Elems(rc) {
      ShrunkElem(chains, b, i, e);
    }
    forall e | e in Elems(rc) ensures e in Elems(chains) && e != del {
      ShrunkElem(chains, b, i, e);
    }
  }

  // ---- what the index stands for ------------------------------------------------------------------

  /** Keys and values in the order of addition. */
  function Entries<V>(order: seq<Elem<V>>): seq<(string, V)> {
    seq(|order|, i requires 0 <= i < |order| => (order[i].key, order[i].value))
  }

  ghost predicate DistinctKeys<V>(s: seq<(string, V)>) {
    forall i, j :: 0 <= i < j < |s| ==> s[i].0 != s[j].0
  }

  function AsMap<V>(s: seq<(string, V)>): map<string, V> {
    if s == [] then map[] else AsMap(s[..|s| - 1])[s[|s| - 1].0 := s[|s| - 1].1]
  }

  lemma {:induction false} MapOfEntries<V>(s: seq<(string, V)>)
    requires DistinctKeys(s)
    ensures forall i :: 0 <= i < |s| ==> s[i].0 in AsMap(s) && AsMap(s)[s[i].0] == s[i].1
    ensures |AsMap(s)| == |s|
  {
    if s != [] {
      var n := |s| - 1;
      MapOfEntries(s[..n]);
      if s[n].0 in AsMap(s[..n]) {
        var i := KeyAt(s[..n], s[n].0);
        assert false;
      }
      forall i | 0 <= i < |s| ensures s[i].0 in AsMap(s) && AsMap(s)[s[i].0] == s[i].1 {
        if i < n {
          assert s[..n][i] == s[i];
        }
      }
    }
  }

  /** The position of a key. */
  lemma {:induction false} KeyAt<V>(s: seq<(string, V)>, k: string) returns (i: nat)
    requires k in AsMap(s)
    ensures i < |s| && s[i].0 == k
  {
    var n := |s| - 1;
    if s[n].0 == k {
      i := n;
    } else {
      i := KeyAt(s[..n], k);
    }
  }

  lemma MapWith<V>(s: seq<(string, V)>, key: string, value: V)
    ensures AsMap(s + [(key, value)]) == AsMap(s)[key := value]
  {
    assert (s + [(key, value)])[..|s|] == s;
  }

  lemma SubtractKey<V>(m: map<string, V>, n: map<string, V>, key: string)
    requires forall k :: k in n ==> k in m && k != key && n[k] == m[k]
    requires forall k :: k in m && k != key ==> k in n
    ensures n == m - {key}
  {}

  lemma StaysIn<V>(s: seq<(string, V)>, i: nat, k: string)
    requires DistinctKeys(s) && i < |s| && DistinctKeys(Without(s, i)) && k in AsMap(s) && k != s[i].0
    ensures k in AsMap(Without(s, i))
  {
    hide AsMap, DistinctKeys;
    var t := Without(s, i);
    MapOfEntries(s);
    MapOfEntries(t);
    var j := KeyAt(s, k);
    assert t[if j < i then j else j - 1] == s[j];
  }

  lemma CameFrom<V>(s: seq<(string, V)>, i: nat, k: string)
    requires DistinctKeys(s) && i < |s| && DistinctKeys(Without(s, i)) && k in AsMap(Without(s, i))
    ensures k in AsMap(s) && k != s[i].0 && AsMap(Without(s, i))[k] == AsMap(s)[k]
  {
    hide AsMap;
    var t := Without(s, i);
    MapOfEntries(s);
    MapOfEntries(t);
    var j := KeyAt(t, k);
    assert t[j] == s[if j < i then j else j + 1];
  }

  /** Deleting an entry takes its key, and nothing else, out of the map. */
  lemma MapWithout<V>(s: seq<(string, V)>, i: nat)
    requires DistinctKeys(s) && i < |s|
    ensures DistinctKeys(Without(s, i)) && AsMap(Without(s, i)) == AsMap(s) - {s[i].0}
  {
    var t := Without(s, i);
    assert forall j :: 0 <= j < |t| ==> t[j] == s[if j < i then j else j + 1];
    assert DistinctKeys(t);
    hide *;
    forall k | k in AsMap(t) ensures k in AsMap(s) && k != s[i].0 && AsMap(t)[k] == AsMap(s)[k] {
      CameFrom(s, i, k);
    }
    forall k | k in AsMap(s) && k != s[i].0 ensures k in AsMap(t) {
      StaysIn(s, i, k);
    }
    SubtractKey(AsMap(s), AsMap(t), s[i].0);
  }

  // ---- the table ------------------------------------------------------------------------------------

  const INITIAL_NUM_BUCKETS := 32
  const INITIAL_NUM_BUCKETS_LOG2 := 5
  const BKT_CAPACITY_THRESH := 10

  /** The list of all elements: linked both ways, with distinct keys and their hash values. */
  ghost predicate ListOk<V>(order: seq<Elem<V>>, hash: string -> nat)
    reads order`next, order`prev
  {
    && Distinct(order) && AppList(order)
    && DistinctKeys(Entries(order)) && (forall e :: e in order ==> e.hashv == hash(e.key))
  }

  /** HASH_FIND_IN_BKT */
  method FindInBucket<V>(head: Elem?<V>, key: string, hashval: nat, ghost chain: seq<Elem<V>>) returns (out: Elem?<V>)
    requires Forward(chain) && head == At(chain, 0)
    ensures out != null ==> out in chain && out.key == key && out.hashv == hashval
    ensures out == null ==> forall e :: e in chain ==> e.key != key || e.hashv != hashval
  {
    out := head;
    ghost var i := 0;
    while out != null
      invariant 0 <= i <= |chain| && out == At(chain, i)
      invariant forall k :: 0 <= k < i ==> chain[k].key != key || chain[k].hashv != hashval
      decreases |chain| - i
    {
      if out.hashv == hashval && out.key == key {
        break;
      }
      out := out.hhNext;
      i := i + 1;
    }
  }

  /** The least length that lets this many buckets hold all items. */
  ghost predicate IdealLength(items: nat, buckets: nat, length: nat) {
    items <= length * buckets && (length == 0 || (length - 1) * buckets < items)
  }

  lemma IdealIs(items: nat, buckets: nat)
    requires 1 <= buckets
    ensures IdealLength(items, buckets, items / buckets + if items % buckets != 0 then 1 else 0)
  {
    var q, r := items / buckets, items % buckets;
    assert items == q * buckets + r;
    if r == 0 && q > 0 {
      MulMono(q - 1, q, buckets);
      assert (q - 1) * buckets == q * buckets - buckets;
    }
    assert (q + 1) * buckets == q * buckets + buckets;
  }

  class Table<V> {
    const hash: string -> nat
    var head: Elem?<V>
    var tail: Elem?<V>
    var buckets: seq<Bucket<V>>
    var log2NumBuckets: nat
    var numItems: nat
    var idealChainMaxlen: nat
    var nonidealItems: nat
    var ineffExpands: nat
    var noexpand: bool
    ghost var order: seq<Elem<V>>
    ghost var chains: seq<seq<Elem<V>>>

    ghost predicate Valid()
      reads this, order, Elems(chains)
    {
      && head == At(order, 0) && ListOk(order, hash)
      && (head != null ==> tail == At(order, |order| - 1) && numItems == |order| && BucketsHold())
    }

    /** The buckets hold exactly the elements of the list. */
    ghost predicate BucketsHold()
      reads this, Elems(chains)
    {
      && |buckets| == Pow(2, log2NumBuckets) && BucketsOk(buckets, chains)
      && Elems(chains) == Members(order) && TotalLength(chains) == |order|
    }

    ghost function Contents(): seq<(string, V)>
      reads this
    {
      Entries(order)
    }

    constructor (hash: string -> nat)
      ensures Valid() && Contents() == [] && this.hash == hash && order == []
    {
      this.hash := hash;
      head, tail, buckets := null, null, [];
      log2NumBuckets, numItems, idealChainMaxlen, nonidealItems, ineffExpands, noexpand := 0, 0, 0, 0, 0, false;
      order, chains := [], [];
    }

    /** HASH_COUNT */
    method Count() returns (n: nat)
      requires Valid()
      ensures n == |Contents()|
    {
      n := if head != null then numItems else 0;
    }

    /** HASH_FIND: only the bucket of the key's hash value is searched. */
    method Find(key: string) returns (out: Elem?<V>)
      requires Valid()
      ensures out != null <==> key in AsMap(Contents())
      ensures out != null ==> out in order && out.key == key && out.value == AsMap(Contents())[key]
    {
      hide BucketsOk, ListOk, DistinctKeys, TotalLength;
      if head == null {
        assert Contents() == [];
        return null;
      }
      SameShape(buckets, chains);
      var b := hash(key) % |buckets|;
      assert BucketOk(buckets[b], chains[b], b, |buckets|);
      InElems(chains, b);
      assert forall e :: e in chains[b] ==> e in Members(order);
      ListHashed(order, hash);
      out := FindInBucket(buckets[b].head, key, hash(key), chains[b]);
      if out != null {
        FoundAt(order, hash, out);
        return;
      }
      NotInOrder(buckets, chains, order, hash, key);
    }

    /** HASH_MAKE_TABLE */
    method MakeTable(add: Elem<V>)
      requires order == []
      modifies this`tail, this`buckets, this`log2NumBuckets, this`numItems, this`idealChainMaxlen, this`nonidealItems
      modifies this`ineffExpands, this`noexpand, this`chains
      ensures tail == add && numItems == 0 && BucketsHold()
      ensures log2NumBuckets == INITIAL_NUM_BUCKETS_LOG2 && |buckets| == INITIAL_NUM_BUCKETS && !noexpand
      ensures forall b :: 0 <= b < |buckets| ==> buckets[b].count == buckets[b].expandMult == 0
    {
      hide BucketsOk, Elems, TotalLength;
      tail, buckets, log2NumBuckets := add, NewBuckets(INITIAL_NUM_BUCKETS), INITIAL_NUM_BUCKETS_LOG2;
      numItems, idealChainMaxlen, nonidealItems, ineffExpands, noexpand := 0, 0, 0, 0, false;
      chains := NewChains(INITIAL_NUM_BUCKETS);
      EmptyBuckets<V>(INITIAL_NUM_BUCKETS, 0);
      assert Pow(2, 5) == 32 by { assert Pow(2, 3) == 8; }
    }

    /** HASH_MAKE_TABLE or HASH_APPEND_LIST: the element becomes the last of the list. */
    method Link(add: Elem<V>)
      requires Valid() && add !in order && add.hashv == hash(add.key) && add.key !in AsMap(Contents())
      modifies this, add`next, add`prev, order`next
      ensures order == old(order) && head == At(order + [add], 0) && tail == add && numItems == |order|
      ensures ListOk(order + [add], hash) && BucketsHold()
      ensures old(head) == null ==>
        && log2NumBuckets == INITIAL_NUM_BUCKETS_LOG2 && |buckets| == INITIAL_NUM_BUCKETS && !noexpand
        && forall b :: 0 <= b < |buckets| ==> buckets[b].count == buckets[b].expandMult == 0
      ensures old(head) != null ==> buckets == old(buckets) && log2NumBuckets == old(log2NumBuckets) && noexpand == old(noexpand)
    {
      hide BucketsOk, Elems, TotalLength, AsMap, ListOk;
      if head == null {
        add.next := null;
        add.prev := null;
        SingleListed(add, hash);
        MakeTable(add);
        head := add;
      } else {
        AppendLast(tail, add, order, hash);
        tail := add;
      }
    }

    /** The bucket that this hash value belongs to is full, with one element more, and may still be split. */
    ghost predicate Overfull(hashv: nat)
      requires buckets != []
      reads this
    {
      var bucket := buckets[hashv % |buckets|];
      !noexpand && bucket.count + 1 >= (bucket.expandMult + 1) * BKT_CAPACITY_THRESH
    }

    /** HASH_ADD_TO_BKT, with the element already counted. */
    method AddToBucket(add: Elem<V>)
      requires BucketsHold() && add !in order && numItems == |order| + 1
      modifies this`buckets, this`log2NumBuckets, this`idealChainMaxlen, this`nonidealItems, this`ineffExpands
      modifies this`noexpand, this`chains, add`hhNext, add`hhPrev, order`hhNext, order`hhPrev
      ensures |buckets| == Pow(2, log2NumBuckets) && BucketsOk(buckets, chains)
      ensures Elems(chains) == Members(order) + {add} && TotalLength(chains) == |order| + 1
      ensures old(buckets) != [] && log2NumBuckets == old(log2NumBuckets) + if old(Overfull(add.hashv)) then 1 else 0
    {
      hide BucketsOk, Elems, TotalLength;
      SameShape(buckets, chains);
      var b := add.hashv % |buckets|;
      ghost var wasc := chains;
      buckets, chains := AddHead(buckets, add, buckets[b].expandMult, chains);
      LongerChain(wasc, b, chains[b]);
      ElemsGrow(wasc, b, add);
      if buckets[b].count >= (buckets[b].expandMult + 1) * BKT_CAPACITY_THRESH && !noexpand {
        Expand();
      }
    }

    /** HASH_EXPAND_BUCKETS */
    method Expand()
      requires |buckets| == Pow(2, log2NumBuckets) && BucketsOk(buckets, chains)
      modifies this`buckets, this`log2NumBuckets, this`idealChainMaxlen, this`nonidealItems, this`ineffExpands
      modifies this`noexpand, this`chains, Elems(chains)`hhNext, Elems(chains)`hhPrev
      ensures |buckets| == Pow(2, log2NumBuckets) && log2NumBuckets == old(log2NumBuckets) + 1
      ensures BucketsOk(buckets, chains) && Elems(chains) == old(Elems(chains))
      ensures TotalLength(chains) == old(TotalLength(chains)) && nonidealItems == Excess(buckets, idealChainMaxlen)
      ensures old(buckets) != [] && |buckets| == 2 * old(|buckets|)
      ensures IdealLength(numItems, |buckets|, idealChainMaxlen)
      ensures ineffExpands == if nonidealItems > numItems / 2 then old(ineffExpands) + 1 else 0
      ensures noexpand == (old(noexpand) || ineffExpands > 1)
    {
      hide BucketsOk, Elems, TotalLength, Excess;
      SameShape(buckets, chains);
      var numBuckets := |buckets|;
      assert Pow(2, log2NumBuckets + 1) == numBuckets * 2;
      idealChainMaxlen := numItems / Pow(2, log2NumBuckets + 1) + if numItems % (numBuckets * 2) != 0 then 1 else 0;
      IdealIs(numItems, numBuckets * 2);
      hide IdealLength;
      buckets, nonidealItems, chains := ExpandBuckets(buckets, idealChainMaxlen, chains);
      log2NumBuckets := log2NumBuckets + 1;
      ineffExpands := if nonidealItems > numItems / 2 then ineffExpands + 1 else 0;
      if ineffExpands > 1 {
        noexpand := true;
      }
    }

    /** HASH_ADD_TO_TABLE */
    method AddToTable(add: Elem<V>)
      requires BucketsHold() && add !in order && numItems == |order|
      requires head == At(order + [add], 0) && tail == add && ListOk(order + [add], hash)
      modifies this`buckets, this`log2NumBuckets, this`idealChainMaxlen, this`nonidealItems, this`ineffExpands, this`noexpand
      modifies this`chains, this`numItems, this`order, add`hhNext, add`hhPrev, order`hhNext, order`hhPrev
      ensures order == old(order) + [add] && Valid()
      ensures old(buckets) != [] && log2NumBuckets == old(log2NumBuckets) + if old(Overfull(add.hashv)) then 1 else 0
    {
      hide BucketsOk, Elems, TotalLength, ListOk;
      numItems := numItems + 1;
      AddToBucket(add);
      order := order + [add];
    }

    /**
     HASH_ADD_KEYPTR of an element whose key is new. The number of buckets is doubled exactly
     when the element's bucket has become too full.
     */
    method Add(add: Elem<V>)
      requires Valid() && add !in order && add.hashv == hash(add.key) && add.key !in AsMap(Contents())
      modifies this, add, order
      ensures Valid() && order == old(order) + [add]
      ensures Contents() == old(Contents()) + [(add.key, add.value)]
      ensures AsMap(Contents()) == old(AsMap(Contents()))[add.key := add.value]
      ensures old(order) == [] ==> log2NumBuckets == INITIAL_NUM_BUCKETS_LOG2
      ensures old(order) != [] ==>
        old(buckets) != [] && log2NumBuckets == old(log2NumBuckets) + if old(Overfull(add.hashv)) then 1 else 0
    {
      hide BucketsOk, Elems, TotalLength, ListOk, AsMap, BucketsHold;
      ghost var was := Contents();
      Link(add);
      AddToTable(add);
      MapWith(was, add.key, add.value);
    }

    /** HASH_DEL_IN_BKT and the count. */
    method RemoveFromTable(del: Elem<V>, ghost i: nat)
      requires BucketsHold() && Distinct(order) && i < |order| && order[i] == del && numItems == |order|
      requires ListOk(Without(order, i), hash) && head == At(Without(order, i), 0)
      requires |order| > 1 && tail == At(Without(order, i), |order| - 2)
      modifies this`buckets, this`chains, this`numItems, this`order, order`hhNext, order`hhPrev
      ensures order == Without(old(order), i) && Valid()
    {
      hide BucketsOk, Elems, TotalLength, ListOk;
      MembersWithout(order, i);
      buckets, chains := DelInBucket(buckets, del, chains);
      numItems := numItems - 1;
      order := Without(order, i);
    }

    /** HASH_DELETE: the last element takes the table with it. */
    method Delete(del: Elem<V>) returns (ghost i: nat)
      requires Valid() && del in order
      modifies this, order
      ensures i < |old(order)| && old(order)[i] == del
      ensures Valid() && order == Without(old(order), i)
      ensures Contents() == Without(old(Contents()), i)
      ensures AsMap(Contents()) == old(AsMap(Contents())) - {del.key}
    {
      hide BucketsOk, Elems, TotalLength, ListOk, Entries, DistinctKeys, AsMap;
      i := IndexOf(order, del);
      ListHashed(order, hash);
      EntryAt(order, i);
      MapWithout(Contents(), i);
      Neighbours(order, hash, i);
      EntriesWithout(order, i);
      if del.prev == null && del.next == null {
        assert Without(order, i) == [];
        head, order, chains := null, [], [];
      } else {
        if del == tail {
          tail := del.prev;
        }
        if del.prev == null {
          head := del.next;
        }
        UnlinkListed(del, order, hash, i);
        RemoveFromTable(del, i);
      }
    }
  }

  lemma SingleListed<V>(add: Elem<V>, hash: string -> nat)
    requires add.next == null && add.prev == null && add.hashv == hash(add.key)
    ensures ListOk([] + [add], hash)
  {
    assert [] + [add] == [add];
  }

  method AppendLast<V>(tail: Elem<V>, add: Elem<V>, ghost order: seq<Elem<V>>, ghost hash: string -> nat)
    requires ListOk(order, hash) && order != [] && tail == order[|order| - 1] && add !in order
    requires add.hashv == hash(add.key) && add.key !in AsMap(Entries(order))
    modifies add`next, add`prev, tail`next
    ensures ListOk(order + [add], hash)
  {
    NewKey(order, add);
    hide AsMap, Entries, DistinctKeys, AppList, Distinct;
    AppendList(tail, add, order);
  }

  lemma NewKey<V>(order: seq<Elem<V>>, add: Elem<V>)
    requires DistinctKeys(Entries(order)) && add.key !in AsMap(Entries(order))
    ensures Entries(order + [add]) == Entries(order) + [(add.key, add.value)] && DistinctKeys(Entries(order + [add]))
  {
    MapOfEntries(Entries(order));
  }

  lemma ListHashed<V>(order: seq<Elem<V>>, hash: string -> nat)
    requires ListOk(order, hash)
    ensures forall e :: e in order ==> e.hashv == hash(e.key)
    ensures DistinctKeys(Entries(order))
  {}

  /** A key that is not in the bucket its hash value selects is nowhere. */
  lemma NotInOrder<V>(buckets: seq<Bucket<V>>, chains: seq<seq<Elem<V>>>, order: seq<Elem<V>>, hash: string -> nat, key: string)
    requires BucketsOk(buckets, chains) && Elems(chains) == Members(order) && ListOk(order, hash)
    requires forall e :: e in chains[hash(key) % |buckets|] ==> e.key != key
    ensures key !in AsMap(Entries(order))
  {
    if key in AsMap(Entries(order)) {
      var j := KeyAt(Entries(order), key);
      assert order[j] in Members(order);
      var _ := PlaceOf(buckets, chains, order[j]);
      assert false;
    }
  }

  lemma FoundAt<V>(order: seq<Elem<V>>, hash: string -> nat, e: Elem<V>)
    requires e in order && ListOk(order, hash)
    ensures e.key in AsMap(Entries(order)) && AsMap(Entries(order))[e.key] == e.value
  {
    MapOfEntries(Entries(order));
    var i :| 0 <= i < |order| && order[i] == e;
    assert Entries(order)[i] == (e.key, e.value);
  }

  lemma IndexOf<V>(order: seq<Elem<V>>, e: Elem<V>) returns (i: nat)
    requires e in order
    ensures i < |order| && order[i] == e
  {
    i :| 0 <= i < |order| && order[i] == e;
  }

  lemma Neighbours<V>(order: seq<Elem<V>>, hash: string -> nat, i: nat)
    requires ListOk(order, hash) && i < |order|
    ensures order[i].next == At(order, i + 1) && order[i].prev == At(order, i - 1)
    ensures Distinct(order) && ListOk<V>([], hash)
  {}

  lemma EntryAt<V>(order: seq<Elem<V>>, i: nat)
    requires i < |order|
    ensures |Entries(order)| == |order| && Entries(order)[i] == (order[i].key, order[i].value)
  {}

  lemma EntriesWithout<V>(order: seq<Elem<V>>, i: nat)
    requires i < |order|
    ensures Entries(Without(order, i)) == Without(Entries(order), i)
  {}

  method UnlinkListed<V>(del: Elem<V>, ghost order: seq<Elem<V>>, ghost hash: string -> nat, ghost i: nat)
    requires ListOk(order, hash) && i < |order| && order[i] == del
    modifies order`next, order`prev
    ensures ListOk(Without(order, i), hash)
  {
    EntriesWithout(order, i);
    MapWithout(Entries(order), i);
    hide AsMap, Entries, DistinctKeys, AppList, Distinct;
    UnlinkList(del, order, i);
  }

  lemma MembersWithout<V>(order: seq<Elem<V>>, i: nat)
    requires Distinct(order) && i < |order|
    ensures Members(Without(order, i)) == Members(order) - {order[i]}
  {
    forall e | e in order && e != order[i] ensures e in Without(order, i) {
      OthersStay(order, i, e);
    }
  }
}
