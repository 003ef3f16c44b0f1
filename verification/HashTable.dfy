/**
 The hash table: a power-of-two array of buckets, grown and shrunk as elements come and go.
 Its contents are a bag in which no two elements compare equal, that is, a set keyed by
 comparison equality.
 */
module HashTable {
  import opened Bits
  import opened Options

  // ---- bucket numbers and bucket counts -------------------------------------------------------

  lemma {:induction false} AndSelf(a: nat, n: nat)
    requires a < Pow2(n)
    ensures AndBits(a, a, n) == a
    decreases n
  {
    if n > 0 {
      AndStep(a, a, n);
      AndSelf(a / 2, n - 1);
    }
  }

  lemma AndOdd(a: nat, b: nat, n: nat)
    requires n > 0
    ensures AndBits(a, 2 * b + 1, n) == a % 2 + 2 * AndBits(a / 2, b, n - 1)
  {
    AndStep(a, 2 * b + 1, n);
    assert (2 * b + 1) / 2 == b && (2 * b + 1) % 2 == 1;
  }

  /** Masking with one less than a power of two keeps the remainder: the bucket number is in range. */
  lemma {:induction false} MaskIsMod(h: nat, k: nat, n: nat)
    requires k <= n
    ensures AndBits(h, Pow2(k) - 1, n) == h % Pow2(k)
    decreases n
  {
    if k == 0 {
      AndZero(h, n);
    } else {
      var p := Pow2(k - 1);
      assert Pow2(k) == 2 * p;
      AndOdd(h, p - 1, n);
      hide AndBits, Pow2;
      MaskIsMod(h / 2, k - 1, n - 1);
      HalfMod(h, p);
    }
  }

  lemma HalfMod(h: nat, p: nat)
    requires p > 0
    ensures h % (2 * p) == h % 2 + 2 * (h / 2 % p)
  {
    var q, r := h / 2 / p, h / 2 % p;
    assert h / 2 == q * p + r;
    assert h == 2 * (h / 2) + h % 2;
    assert h == q * (2 * p) + (h % 2 + 2 * r) by { Twice(q, p); }
    ModUnique(h, 2 * p, q, h % 2 + 2 * r);
  }

  lemma Twice(q: nat, p: nat)
    ensures q * (2 * p) == 2 * (q * p)
  {
  }

  lemma ModUnique(x: nat, m: nat, q: nat, r: nat)
    requires m > 0 && x == q * m + r && r < m
    ensures x % m == r
  {
    var k, s := x / m, x % m;
    assert x == k * m + s;
    if k < q {
      Gap(k, q, m);
    } else if q < k {
      Gap(q, k, m);
    }
  }

  lemma {:induction false} Gap(i: nat, j: nat, m: nat)
    requires i < j
    ensures i * m + m <= j * m
    decreases j
  {
    assert j * m == (j - 1) * m + m;
    if i < j - 1 {
      Gap(i, j - 1, m);
    }
  }

  /** `turn_off_least_1bit` */
  function TurnOffLeast(x: nat): nat
    requires x > 0
  {
    AndBits(x, x - 1, WORD_BITS)
  }

  /** What turning off the least one bit does, by arithmetic. */
  function Reduced(x: nat): (r: nat)
    requires x > 0
    ensures r < x
  {
    if x % 2 == 1 then x - 1 else 2 * Reduced(x / 2)
  }

  lemma {:induction false} TurnOffReduces(x: nat, n: nat)
    requires 0 < x < Pow2(n)
    ensures AndBits(x, x - 1, n) == Reduced(x)
    decreases n
  {
    AndStep(x, x - 1, n);
    if x % 2 == 1 {
      assert (x - 1) / 2 == x / 2 && (x - 1) % 2 == 0;
      AndSelf(x / 2, n - 1);
    } else {
      assert (x - 1) / 2 == x / 2 - 1 && (x - 1) % 2 == 1;
      TurnOffReduces(x / 2, n - 1);
    }
  }

  /** Only the powers of two reduce to zero; anything else stays at or above the same power. */
  lemma {:induction false} ReducedBracket(x: nat, k: nat)
    requires Pow2(k) <= x < 2 * Pow2(k)
    ensures Reduced(x) == 0 <==> x == Pow2(k)
    ensures x != Pow2(k) ==> Pow2(k) <= Reduced(x)
  {
    if k > 0 {
      ReducedBracket(x / 2, k - 1);
    }
  }

  lemma {:induction false} Bracket(x: nat, n: nat) returns (k: nat)
    requires 0 < x < Pow2(n)
    ensures k < n && Pow2(k) <= x < 2 * Pow2(k)
  {
    k := n - 1;
    if x < Pow2(n - 1) {
      k := Bracket(x, n - 1);
    }
  }

  lemma {:induction false} Pow2Mono(i: nat, j: nat)
    requires i < j
    ensures 2 * Pow2(i) <= Pow2(j)
    decreases j
  {
    if i < j - 1 {
      Pow2Mono(i, j - 1);
    }
  }

  /** `cnt` is the largest power of two that is at most `x`. */
  ghost predicate LargestPow2(cnt: nat, x: nat) {
    (exists k: nat :: cnt == Pow2(k)) && cnt <= x < 2 * cnt
  }

  lemma LargestUnique(a: nat, b: nat, x: nat)
    requires LargestPow2(a, x) && LargestPow2(b, x)
    ensures a == b
  {
    var i: nat :| a == Pow2(i);
    var j: nat :| b == Pow2(j);
    if i < j {
      Pow2Mono(i, j);
    } else if j < i {
      Pow2Mono(j, i);
    }
  }

  lemma WordRange()
    ensures Pow2(2) == 4 && Pow2(WORD_BITS) == 0x1_0000_0000
  {
    assert Pow2(8) == 256 && Pow2(16) == 65536 && Pow2(24) == 0x100_0000;
  }

  lemma TurnOffStep(cnt: nat, k: nat)
    requires Pow2(k) <= cnt < 2 * Pow2(k) && cnt < 0x1_0000_0000
    ensures TurnOffLeast(cnt) < cnt
    ensures if TurnOffLeast(cnt) == 0 then cnt == Pow2(k) else Pow2(k) <= TurnOffLeast(cnt)
  {
    WordRange();
    TurnOffReduces(cnt, WORD_BITS);
    ReducedBracket(cnt, k);
  }

  /** The loop of `rehash` that picks the bucket count. */
  method BestCount(elemCnt: nat) returns (cnt: nat)
    requires elemCnt < 0x1_0000_0000
    ensures LargestPow2(cnt, if elemCnt / 2 < 4 then 4 else elemCnt / 2)
    ensures 4 <= cnt && IsPow2(cnt)
  {
    hide AndBits, Pow2;
    cnt := elemCnt / 2;
    if cnt < 4 {
      cnt := 4;
    }
    WordRange();
    ghost var k := Bracket(cnt, WORD_BITS);
    ghost var x := cnt;
    while TurnOffLeast(cnt) != 0
      invariant Pow2(k) <= cnt <= x < 2 * Pow2(k)
      decreases cnt
    {
      TurnOffStep(cnt, k);
      cnt := TurnOffLeast(cnt);
    }
    TurnOffStep(cnt, k);
    if k < 2 {
      Pow2Mono(k, 2);
    }
    assert cnt >= 4 by {
      if 2 < k {
        Pow2Mono(2, k);
      }
    }
  }

  // ---- the bag of elements -----------------------------------------------------------------------

  type Buckets<E> = seq<seq<E>>

  /** Everything in the buckets. */
  ghost function Bag<E>(bs: Buckets<E>): multiset<E> {
    if bs == [] then multiset{} else Bag(bs[..|bs| - 1]) + multiset(bs[|bs| - 1])
  }

  lemma {:induction false} BagMember<E>(bs: Buckets<E>, e: E)
    ensures e in Bag(bs) <==> exists i :: 0 <= i < |bs| && e in bs[i]
  {
    if bs != [] {
      var init := bs[..|bs| - 1];
      BagMember(init, e);
      if exists i :: 0 <= i < |init| && e in init[i] {
        var i :| 0 <= i < |init| && e in init[i];
        assert e in bs[i];
      }
    }
  }

  lemma {:induction false} BagUpdate<E>(bs: Buckets<E>, i: nat, b: seq<E>)
    requires i < |bs|
    ensures Bag(bs[i := b]) + multiset(bs[i]) == Bag(bs) + multiset(b)
  {
    var n := |bs| - 1;
    var bs' := bs[i := b];
    if i < n {
      BagUpdate(bs[..n], i, b);
      assert bs'[..n] == bs[..n][i := b] && bs'[n] == bs[n];
      Shuffle(Bag(bs'[..n]), Bag(bs[..n]), multiset(bs[i]), multiset(b), multiset(bs[n]));
    } else {
      assert bs'[..n] == bs[..n];
    }
  }

  lemma Shuffle<E>(a: multiset<E>, b: multiset<E>, x: multiset<E>, y: multiset<E>, z: multiset<E>)
    requires a + x == b + y
    ensures a + z + x == b + z + y
  {
    assert a + z + x == a + x + z && b + z + y == b + y + z;
  }

  lemma Cancel<E>(a: multiset<E>, b: multiset<E>, x: multiset<E>, e: E)
    requires a + x == b + (multiset{e} + x)
    ensures a == b + multiset{e}
  {
    assert a == a + x - x && b + multiset{e} == b + (multiset{e} + x) - x;
  }

  lemma {:induction false} BagEmpty<E>(n: nat)
    ensures Bag(seq<seq<E>>(n, _ => [])) == multiset{}
  {
    if n > 0 {
      BagEmpty<E>(n - 1);
      assert seq<seq<E>>(n, _ => [])[..n - 1] == seq<seq<E>>(n - 1, _ => []);
    }
  }

  lemma BagPrefix<E>(bs: Buckets<E>, i: nat)
    requires i < |bs|
    ensures Bag(bs[..i + 1]) == Bag(bs[..i]) + multiset(bs[i])
  {
    assert bs[..i + 1][..i] == bs[..i];
  }

  lemma {:induction false} BagGrows<E>(bs: Buckets<E>, i: nat)
    requires i <= |bs|
    ensures Bag(bs[..i]) <= Bag(bs)
    decreases |bs| - i
  {
    if i < |bs| {
      BagPrefix(bs, i);
      BagGrows(bs, i + 1);
    } else {
      assert bs[..i] == bs;
    }
  }

  lemma CardBound<E>(a: multiset<E>, b: multiset<E>)
    requires a <= b
    ensures |a| <= |b|
  {
    assert b == a + (b - a);
  }

  lemma TakeOne<E>(b: seq<E>, j: nat)
    requires j < |b|
    ensures multiset(b[..j + 1]) == multiset(b[..j]) + multiset{b[j]}
  {
    assert b[..j + 1] == b[..j] + [b[j]];
  }

  lemma PushBag<E>(bs: Buckets<E>, i: nat, e: E)
    requires i < |bs|
    ensures Bag(bs[i := [e] + bs[i]]) == Bag(bs) + multiset{e}
  {
    BagUpdate(bs, i, [e] + bs[i]);
    assert multiset([e] + bs[i]) == multiset{e} + multiset(bs[i]);
    Cancel(Bag(bs[i := [e] + bs[i]]), Bag(bs), multiset(bs[i]), e);
  }

  lemma DropBag<E>(bs: Buckets<E>, i: nat, j: nat)
    requires i < |bs| && j < |bs[i]|
    ensures Bag(bs[i := bs[i][..j] + bs[i][j + 1..]]) == Bag(bs) - multiset{bs[i][j]} && bs[i][j] in Bag(bs)
  {
    var b := bs[i];
    hide Bag;
    var rest := b[..j] + b[j + 1..];
    BagUpdate(bs, i, rest);
    assert b == b[..j] + [b[j]] + b[j + 1..];
    assert multiset(b) == multiset{b[j]} + multiset(rest);
    Cancel(Bag(bs), Bag(bs[i := rest]), multiset(rest), b[j]);
    BagMember(bs, b[j]);
  }

  // ---- the table -----------------------------------------------------------------------------------

  ghost predicate IsPow2(n: nat) {
    exists k: nat :: k <= WORD_BITS && n == Pow2(k)
  }

  /**
   Position of an iterator: the first `pos` elements of bucket `bucket`, and all earlier
   buckets, have been returned.
   */
  datatype Iter = Iter(bucket: nat, pos: nat)

  class Table<E(==, !new)> {
    const hash: E -> nat
    const less: (E, E) -> bool
    var buckets: Buckets<E>
    var elemCnt: nat

    predicate Equal(a: E, b: E) {
      !less(a, b) && !less(b, a)
    }

    /** What the table's users promise: comparison equality is an equivalence, and equal elements hash alike. */
    ghost predicate Lawful() {
      && (forall a :: Equal(a, a)) && (forall a, b :: Equal(a, b) ==> hash(a) == hash(b))
      && (forall a, b, c :: Equal(a, b) && Equal(b, c) ==> Equal(a, c))
    }

    /** `find_bucket` */
    function Home(e: E, cnt: nat): nat
      requires cnt > 0
    {
      AndBits(hash(e), cnt - 1, WORD_BITS)
    }

    /** Every element is in the bucket that its hash selects. */
    ghost predicate Placed(bs: Buckets<E>) {
      forall i, e :: 0 <= i < |bs| && e in bs[i] ==> Home(e, |bs|) == i
    }

    /** No two elements compare equal. */
    ghost predicate Keyed(bag: multiset<E>) {
      forall a, b :: a in bag && b in bag && Equal(a, b) ==> a == b && bag[a] == 1
    }

    ghost predicate Valid()
      reads this
    {
      Lawful() && IsPow2(|buckets|) && Placed(buckets) && Keyed(Bag(buckets)) && elemCnt == |Bag(buckets)|
    }

    lemma HomeInRange(e: E, cnt: nat)
      requires IsPow2(cnt)
      ensures cnt > 0 && Home(e, cnt) < cnt
    {
      var k: nat :| k <= WORD_BITS && cnt == Pow2(k);
      MaskIsMod(hash(e), k, WORD_BITS);
    }

    /** `hash_init`, when its allocation succeeds. */
    constructor (hash: E -> nat, less: (E, E) -> bool)
      requires forall a :: !less(a, a)
      requires forall a, b :: !less(a, b) && !less(b, a) ==> hash(a) == hash(b)
      requires forall a, b, c :: !less(a, b) && !less(b, a) && !less(b, c) && !less(c, b) ==> !less(a, c) && !less(c, a)
      ensures Valid() && Bag(buckets) == multiset{} && this.hash == hash && this.less == less && |buckets| == 4
    {
      this.hash, this.less := hash, less;
      elemCnt := 0;
      buckets := seq(4, _ => []);
      new;
      BagEmpty<E>(4);
      WordRange();
    }

    /** `find_elem`: the position in its bucket of an element equal to `e`, if the table has one. */
    method FindElem(e: E) returns (i: nat, j: Option<nat>)
      requires Valid()
      ensures i < |buckets| && i == Home(e, |buckets|)
      ensures j.Some? ==> j.value < |buckets[i]| && Equal(buckets[i][j.value], e)
      ensures j.None? ==> forall x :: x in Bag(buckets) ==> !Equal(x, e)
    {
      HomeInRange(e, |buckets|);
      i := Home(e, |buckets|);
      var n := 0;
      while n < |buckets[i]|
        invariant n <= |buckets[i]| && forall k :: 0 <= k < n ==> !Equal(buckets[i][k], e)
      {
        if Equal(buckets[i][n], e) {
          return i, Some(n);
        }
        n := n + 1;
      }
      forall x | x in Bag(buckets) ensures !Equal(x, e) {
        BagMember(buckets, x);
        var k :| 0 <= k < |buckets| && x in buckets[k];
        assert Home(x, |buckets|) == k;
      }
      j := None;
    }

    /** `hash_find` */
    method Find(e: E) returns (r: Option<E>)
      requires Valid()
      ensures r.Some? ==> r.value in Bag(buckets) && Equal(r.value, e)
      ensures r.None? ==> forall x :: x in Bag(buckets) ==> !Equal(x, e)
    {
      var i, j := FindElem(e);
      if j.None? {
        return None;
      }
      BagMember(buckets, buckets[i][j.value]);
      r := Some(buckets[i][j.value]);
    }

    /** `insert_elem` of an element that no present one equals. */
    method InsertElem(i: nat, e: E)
      requires Valid() && i < |buckets| && i == Home(e, |buckets|) && forall x :: x in Bag(buckets) ==> !Equal(x, e)
      modifies this
      ensures Valid() && Bag(buckets) == old(Bag(buckets)) + multiset{e} && |buckets| == old(|buckets|)
    {
      PushBag(buckets, i, e);
      elemCnt := elemCnt + 1;
      buckets := buckets[i := [e] + buckets[i]];
    }

    /** `remove_elem` */
    method RemoveElem(i: nat, j: nat)
      requires Valid() && i < |buckets| && j < |buckets[i]|
      modifies this
      ensures Valid() && |buckets| == old(|buckets|) && old(buckets[i][j]) in old(Bag(buckets))
      ensures Bag(buckets) == old(Bag(buckets)) - multiset{old(buckets[i][j])}
    {
      hide Bag, AndBits, IsPow2;
      DropBag(buckets, i, j);
      elemCnt := elemCnt - 1;
      buckets := buckets[i := buckets[i][..j] + buckets[i][j + 1..]];
    }

    /**
     The inner loop of `rehash`: the elements of one old bucket, each to the front of the bucket
     it now belongs in.
     */
    method MoveBucket(b: seq<E>, bs: Buckets<E>) returns (nb: Buckets<E>)
      requires IsPow2(|bs|) && Placed(bs)
      ensures |nb| == |bs| && Placed(nb) && Bag(nb) == Bag(bs) + multiset(b)
    {
      hide AndBits, IsPow2, Bag;
      nb := bs;
      var j := 0;
      while j < |b|
        invariant j <= |b| && |nb| == |bs| && Placed(nb) && Bag(nb) == Bag(bs) + multiset(b[..j])
      {
        HomeInRange(b[j], |nb|);
        PushBag(nb, Home(b[j], |nb|), b[j]);
        TakeOne(b, j);
        nb := nb[Home(b[j], |nb|) := [b[j]] + nb[Home(b[j], |nb|)]];
        j := j + 1;
      }
      assert b[..j] == b;
    }

    /** The outer loop of `rehash`. */
    method Moved(n: nat) returns (nb: Buckets<E>)
      requires IsPow2(n)
      ensures |nb| == n && Placed(nb) && Bag(nb) == Bag(buckets)
    {
      hide AndBits, IsPow2;
      nb := seq(n, _ => []);
      BagEmpty<E>(n);
      var i := 0;
      while i < |buckets|
        invariant i <= |buckets| && |nb| == n && Placed(nb) && Bag(nb) == Bag(buckets[..i])
      {
        nb := MoveBucket(buckets[i], nb);
        BagPrefix(buckets, i);
        i := i + 1;
      }
      assert buckets[..i] == buckets;
    }

    /** `rehash`: nothing lost or gained, and, memory permitting, the ideal number of buckets. */
    method Rehash(mallocOk: bool)
      requires Valid() && elemCnt < 0x1_0000_0000
      modifies this`buckets
      ensures Valid() && Bag(buckets) == old(Bag(buckets))
      ensures mallocOk ==> LargestPow2(|buckets|, if elemCnt / 2 < 4 then 4 else elemCnt / 2)
      ensures !mallocOk ==> buckets == old(buckets)
    {
      var n := BestCount(elemCnt);
      if n == |buckets| || !mallocOk {
        return;
      }
      buckets := Moved(n);
    }

    /** `hash_insert` */
    method Insert(e: E, mallocOk: bool) returns (r: Option<E>)
      requires Valid() && elemCnt + 1 < 0x1_0000_0000
      modifies this
      ensures Valid()
      ensures r.None? ==> (forall x :: x in old(Bag(buckets)) ==> !Equal(x, e)) &&
                          Bag(buckets) == old(Bag(buckets)) + multiset{e}
      ensures r.Some? ==> r.value in old(Bag(buckets)) && Equal(r.value, e) && Bag(buckets) == old(Bag(buckets))
      ensures mallocOk ==> LargestPow2(|buckets|, if elemCnt / 2 < 4 then 4 else elemCnt / 2)
    {
      var i, j := FindElem(e);
      if j.None? {
        InsertElem(i, e);
        r := None;
      } else {
        BagMember(buckets, buckets[i][j.value]);
        r := Some(buckets[i][j.value]);
      }
      Rehash(mallocOk);
    }

    /** Taking out the element equal to `e` leaves none equal to it. */
    lemma TakenOut(bag: multiset<E>, x: E, e: E)
      requires Lawful() && Keyed(bag) && x in bag && Equal(x, e)
      ensures Keyed(bag - multiset{x}) && forall y :: y in bag - multiset{x} ==> !Equal(y, e)
    {
      forall y | y in bag - multiset{x} ensures !Equal(y, e) {
        assert Equal(e, x);
        assert Equal(y, e) ==> Equal(y, x);
      }
    }

    /** `hash_replace` */
    method Replace(e: E, mallocOk: bool) returns (r: Option<E>)
      requires Valid() && elemCnt + 1 < 0x1_0000_0000
      modifies this
      ensures Valid()
      ensures r.None? ==> (forall x :: x in old(Bag(buckets)) ==> !Equal(x, e)) &&
                          Bag(buckets) == old(Bag(buckets)) + multiset{e}
      ensures r.Some? ==> r.value in old(Bag(buckets)) && Equal(r.value, e)
      ensures r.Some? ==> Bag(buckets) == old(Bag(buckets)) - multiset{r.value} + multiset{e}
      ensures mallocOk ==> LargestPow2(|buckets|, if elemCnt / 2 < 4 then 4 else elemCnt / 2)
    {
      var i, j := FindElem(e);
      r := None;
      if j.Some? {
        BagMember(buckets, buckets[i][j.value]);
        TakenOut(Bag(buckets), buckets[i][j.value], e);
        r := Some(buckets[i][j.value]);
        RemoveElem(i, j.value);
      }
      InsertElem(i, e);
      Rehash(mallocOk);
    }

    /** `hash_delete` */
    method Delete(e: E, mallocOk: bool) returns (r: Option<E>)
      requires Valid() && elemCnt < 0x1_0000_0000
      modifies this
      ensures Valid()
      ensures r.None? ==> (forall x :: x in old(Bag(buckets)) ==> !Equal(x, e)) && buckets == old(buckets)
      ensures r.Some? ==> r.value in old(Bag(buckets)) && Equal(r.value, e) &&
                          Bag(buckets) == old(Bag(buckets)) - multiset{r.value}
      ensures r.Some? ==> forall x :: x in Bag(buckets) ==> !Equal(x, e)
      ensures r.Some? && mallocOk ==> LargestPow2(|buckets|, if elemCnt / 2 < 4 then 4 else elemCnt / 2)
    {
      var i, j := FindElem(e);
      if j.None? {
        return None;
      }
      BagMember(buckets, buckets[i][j.value]);
      TakenOut(Bag(buckets), buckets[i][j.value], e);
      r := Some(buckets[i][j.value]);
      RemoveElem(i, j.value);
      Rehash(mallocOk);
    }

    // ---- iteration ---------------------------------------------------------------------------------

    ghost predicate InTable(it: Iter)
      reads this
    {
      it.bucket < |buckets| && it.pos <= |buckets[it.bucket]|
    }

    /** What an iterator has returned so far. */
    ghost function Seen(it: Iter): multiset<E>
      requires InTable(it)
      reads this
    {
      Bag(buckets[..it.bucket]) + multiset(buckets[it.bucket][..it.pos])
    }

    /** `hash_first` */
    method First() returns (it: Iter)
      requires Valid()
      ensures InTable(it) && Seen(it) == multiset{}
    {
      var k: nat :| k <= WORD_BITS && |buckets| == Pow2(k);
      it := Iter(0, 0);
    }

    /** `hash_next`: one element not returned before, or the end when all have been. */
    method Next(it: Iter) returns (it': Iter, r: Option<E>)
      requires Valid() && InTable(it)
      ensures r.Some? ==> InTable(it') && Seen(it') == Seen(it) + multiset{r.value}
      ensures r.None? ==> Seen(it) == Bag(buckets)
    {
      it' := it;
      while it'.pos == |buckets[it'.bucket]|
        invariant InTable(it') && Seen(it') == Seen(it)
        decreases |buckets| - it'.bucket
      {
        BagPrefix(buckets, it'.bucket);
        assert buckets[it'.bucket][..it'.pos] == buckets[it'.bucket];
        if it'.bucket + 1 >= |buckets| {
          assert buckets[..it'.bucket + 1] == buckets;
          return it', None;
        }
        it' := Iter(it'.bucket + 1, 0);
      }
      var b := buckets[it'.bucket];
      assert b[..it'.pos + 1] == b[..it'.pos] + [b[it'.pos]];
      r := Some(b[it'.pos]);
      it' := it'.(pos := it'.pos + 1);
    }

    lemma SeenWithin(it: Iter)
      requires InTable(it)
      ensures Seen(it) <= Bag(buckets)
    {
      var b := buckets[it.bucket];
      assert b == b[..it.pos] + b[it.pos..];
      BagPrefix(buckets, it.bucket);
      BagGrows(buckets, it.bucket + 1);
    }

    lemma KeyedVisits(v: seq<E>, i: nat, j: nat)
      requires Keyed(multiset(v)) && i < j < |v|
      ensures !Equal(v[i], v[j])
    {
      assert v == v[..j] + [v[j]] + v[j + 1..];
      assert v[i] in v[..j];
      assert v[i] == v[j] ==> multiset(v)[v[i]] >= 2;
    }

    /** The iteration idiom visits every element exactly once. */
    method VisitAll() returns (visited: seq<E>)
      requires Valid()
      ensures multiset(visited) == Bag(buckets) && |visited| == elemCnt
      ensures forall i, j :: 0 <= i < j < |visited| ==> !Equal(visited[i], visited[j])
    {
      visited := [];
      var it := First();
      var r: Option<E>;
      it, r := Next(it);
      while r.Some?
        invariant r.Some? ==> InTable(it) && Seen(it) == multiset(visited) + multiset{r.value}
        invariant r.None? ==> multiset(visited) == Bag(buckets)
        decreases |Bag(buckets)| - |visited|, r.Some?
      {
        SeenWithin(it);
        CardBound(Seen(it), Bag(buckets));
        visited := visited + [r.value];
        it, r := Next(it);
      }
      forall i, j | 0 <= i < j < |visited| ensures !Equal(visited[i], visited[j]) {
        KeyedVisits(visited, i, j);
      }
    }
  }
}
