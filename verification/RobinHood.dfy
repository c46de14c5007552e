/**
  The bucket array of the Robin Hood hash table: packed words of distance and fingerprint, the order
  that makes early stopping sound, and what the two shifts do to it.
 */
module RobinHood {

  const DIST_INC: nat := 0x100
  const MAX_NUM_BUCKETS: nat := 0xFF_FFFF
  const WORD_LIMIT: nat := 0x1_0000_0000

  /** `word` holds the distance in its upper 24 bits and the fingerprint in its lower 8; zero means empty. */
  datatype Bucket = Bucket(word: nat, value: nat) {
    predicate Empty() { word == 0 }
    function PlusDist(): Bucket { Bucket((word + DIST_INC) % WORD_LIMIT, value) }
    function MinusDist(): Bucket { Bucket((word + WORD_LIMIT - DIST_INC) % WORD_LIMIT, value) }
  }

  const EMPTY_BUCKET := Bucket(0, 0)

  function Next(n: nat, i: nat): nat { if i + 1 < n then i + 1 else 0 }

  function Prev(n: nat, i: nat): nat
    requires i < n
  {
    if i == 0 then n - 1 else i - 1
  }

  /** How many steps of `Next` lead from one bucket to another. */
  function Steps(n: nat, from: nat, to: nat): nat
    requires from < n && to < n
  {
    if from <= to then to - from else to + n - from
  }

  /** The bucket `k` steps before bucket `i`. */
  function Back(n: nat, i: nat, k: nat): nat
    requires i < n && k <= n
  {
    if k <= i then i - k else i + n - k
  }

  function HomeOf(n: nat, hash: nat): (i: nat)
    requires n > 0
    ensures i < n
  {
    hash / DIST_INC % n
  }

  /** The word of an element with the given hash in bucket `i`. */
  function WordAt(n: nat, hash: nat, i: nat): nat
    requires i < n
  {
    DIST_INC * (Steps(n, HomeOf(n, hash), i) + 1) + hash % DIST_INC
  }

  // ----- the invariant

  /** A stored distance is the true cyclic distance from the home bucket plus one. */
  ghost predicate Placed(bs: seq<Bucket>, hashes: seq<nat>, b: Bucket, i: nat)
    requires i < |bs|
  {
    b.value < |hashes| && b.word == WordAt(|bs|, hashes[b.value], i)
  }

  /** An element away from its home is at most one distance unit behind its predecessor. */
  ghost predicate InOrder(bs: seq<Bucket>, b: Bucket, i: nat)
    requires i < |bs|
  {
    b.word >= 2 * DIST_INC ==> b.word <= bs[Prev(|bs|, i)].word + DIST_INC
  }

  ghost predicate Sorted(bs: seq<Bucket>, hashes: seq<nat>) {
    && 0 < |bs| <= MAX_NUM_BUCKETS
    && (forall i :: 0 <= i < |bs| ==> bs[i].Empty() || Placed(bs, hashes, bs[i], i))
    && (forall i :: 0 <= i < |bs| ==> InOrder(bs, bs[i], i))
  }

  ghost predicate DistinctValues(bs: seq<Bucket>) {
    forall i, j :: 0 <= i < j < |bs| && !bs[i].Empty() && !bs[j].Empty() ==> bs[i].value != bs[j].value
  }

  /** The value indices that the buckets refer to. */
  ghost function Values(bs: seq<Bucket>): set<nat> {
    set i | 0 <= i < |bs| && !bs[i].Empty() :: bs[i].value
  }

  predicate IsAnchor(bs: seq<Bucket>, i: nat) {
    i < |bs| && DIST_INC <= bs[i].word < 2 * DIST_INC
  }

  /** Some element, if there is one at all, sits in its home bucket. */
  ghost predicate Anchored(bs: seq<Bucket>) {
    (forall i :: 0 <= i < |bs| ==> bs[i].Empty()) || exists i :: IsAnchor(bs, i)
  }

  ghost predicate ValidBuckets(bs: seq<Bucket>, hashes: seq<nat>) {
    Sorted(bs, hashes) && DistinctValues(bs) && Anchored(bs)
  }

  // ----- consequences of the order

  lemma WordBounds(bs: seq<Bucket>, hashes: seq<nat>, i: nat)
    requires Sorted(bs, hashes) && i < |bs|
    ensures bs[i].word < DIST_INC * (|bs| + 1) <= WORD_LIMIT
    ensures bs[i].Empty() || bs[i].word >= DIST_INC
  {
  }

  lemma StoredWord(bs: seq<Bucket>, hashes: seq<nat>, i: nat)
    requires Sorted(bs, hashes) && i < |bs| && !bs[i].Empty()
    ensures bs[i].value < |hashes| && bs[i].word == WordAt(|bs|, hashes[bs[i].value], i)
  {
  }

  lemma HomeWord(bs: seq<Bucket>, hashes: seq<nat>, i: nat)
    requires Sorted(bs, hashes) && i < |bs| && !bs[i].Empty()
    ensures bs[i].value < |hashes|
    ensures bs[i].word >= DIST_INC * (Steps(|bs|, HomeOf(|bs|, hashes[bs[i].value]), i) + 1)
  {
  }

  /** Words fall by at most one unit per step back towards the home bucket. */
  lemma {:induction false} RunBack(bs: seq<Bucket>, hashes: seq<nat>, i: nat, k: nat)
    requires Sorted(bs, hashes) && i < |bs| && !bs[i].Empty() && k <= Steps(|bs|, HomeOf(|bs|, hashes[bs[i].value]), i)
    ensures k < |bs| && bs[Back(|bs|, i, k)].word + DIST_INC * k >= bs[i].word
    ensures !bs[Back(|bs|, i, k)].Empty()
  {
    hide WordAt, HomeOf, Sorted;
    HomeWord(bs, hashes, i);
    if k > 0 {
      RunBack(bs, hashes, i, k - 1);
      var j := Back(|bs|, i, k - 1);
      Behind(bs, hashes, j);
      assert Prev(|bs|, j) == Back(|bs|, i, k);
    }
  }

  lemma Behind(bs: seq<Bucket>, hashes: seq<nat>, i: nat)
    requires Sorted(bs, hashes) && i < |bs| && bs[i].word >= 2 * DIST_INC
    ensures bs[i].word <= bs[Prev(|bs|, i)].word + DIST_INC
  {
    hide WordAt, HomeOf;
    assert InOrder(bs, bs[i], i);
  }

  /** While some bucket is empty, no element is a full circle away from its home. */
  lemma NotFullCircle(bs: seq<Bucket>, hashes: seq<nat>, i: nat, e: nat)
    requires Sorted(bs, hashes) && i < |bs| && !bs[i].Empty() && e < |bs| && bs[e].Empty()
    ensures Steps(|bs|, HomeOf(|bs|, hashes[bs[i].value]), i) + 1 < |bs|
    ensures Next(|bs|, i) != HomeOf(|bs|, hashes[bs[i].value])
  {
    var n := |bs|;
    var d, k := Steps(n, HomeOf(n, hashes[bs[i].value]), i), Steps(n, e, i);
    assert Back(n, i, k) == e;
    if k <= d {
      RunBack(bs, hashes, i, k);
    }
  }

  lemma WordNext(n: nat, hash: nat, i: nat)
    requires i < n && Next(n, i) != HomeOf(n, hash)
    ensures WordAt(n, hash, Next(n, i)) == WordAt(n, hash, i) + DIST_INC
  {
  }

  /** The element behind an empty bucket, if any, is at home; so a table with an empty bucket is anchored. */
  lemma {:induction false} GapAnchors(bs: seq<Bucket>, hashes: seq<nat>, e: nat, x: nat)
    requires Sorted(bs, hashes) && e < |bs| && bs[e].Empty() && x < |bs| && !bs[x].Empty()
    ensures exists i :: IsAnchor(bs, i)
    decreases Steps(|bs|, e, x)
  {
    hide Placed;
    var i := Next(|bs|, e);
    assert InOrder(bs, bs[i], i);
    assert Prev(|bs|, i) == e;
    WordBounds(bs, hashes, i);
    if bs[i].Empty() {
      GapAnchors(bs, hashes, i, x);
    } else {
      assert IsAnchor(bs, i);
    }
  }

  // ----- insertion

  /** Putting `c` into bucket `i` keeps the order there and behind. */
  ghost predicate Insertable(bs: seq<Bucket>, hashes: seq<nat>, c: Bucket, i: nat) {
    i < |bs| && Placed(bs, hashes, c, i) && InOrder(bs, c, i) && bs[i].word <= c.word && c.value !in Values(bs)
  }

  lemma OrderAfterPut(bs: seq<Bucket>, hashes: seq<nat>, c: Bucket, i: nat)
    requires Sorted(bs, hashes) && Insertable(bs, hashes, c, i)
    ensures Sorted(bs[i := c], hashes)
  {
    hide WordAt;
    var bs' := bs[i := c];
    forall j | 0 <= j < |bs'|
      ensures InOrder(bs', bs'[j], j) && (bs'[j].Empty() || Placed(bs', hashes, bs'[j], j))
    {
      assert InOrder(bs, bs[j], j);
    }
  }

  lemma ValuesAfterPut(bs: seq<Bucket>, c: Bucket, i: nat)
    requires i < |bs| && DistinctValues(bs) && c.value !in Values(bs) && !c.Empty()
    ensures DistinctValues(bs[i := c])
    ensures Values(bs[i := c]) == (if bs[i].Empty() then Values(bs) else Values(bs) - {bs[i].value}) + {c.value}
  {
    var bs' := bs[i := c];
    assert forall j :: 0 <= j < |bs| && !bs[j].Empty() ==> bs[j].value in Values(bs);
    forall v | v in (if bs[i].Empty() then Values(bs) else Values(bs) - {bs[i].value}) + {c.value}
      ensures v in Values(bs')
    {
      if v == c.value {
        assert bs'[i].value == v;
      } else {
        var j :| 0 <= j < |bs| && !bs[j].Empty() && bs[j].value == v;
        assert bs'[j] == bs[j];
      }
    }
    forall v | v in Values(bs')
      ensures v in (if bs[i].Empty() then Values(bs) else Values(bs) - {bs[i].value}) + {c.value}
    {
      var j :| 0 <= j < |bs'| && !bs'[j].Empty() && bs'[j].value == v;
      assert j != i ==> bs'[j] == bs[j];
    }
  }

  /** One step of the shift: the displaced element is insertable one bucket further on. */
  lemma ShiftUpStep(bs: seq<Bucket>, hashes: seq<nat>, c: Bucket, i: nat, e: nat)
    requires Sorted(bs, hashes) && DistinctValues(bs) && Insertable(bs, hashes, c, i) && !bs[i].Empty()
    requires e < |bs| && bs[e].Empty()
    ensures var bs', c', i' := bs[i := c], bs[i].PlusDist(), Next(|bs|, i);
      && Sorted(bs', hashes) && DistinctValues(bs') && Insertable(bs', hashes, c', i') && bs'[e].Empty()
      && Steps(|bs|, i', e) < Steps(|bs|, i, e)
      && Values(bs') + {c'.value} == Values(bs) + {c.value}
  {
    hide WordAt, Values, HomeOf;
    var n, bs', d, i' := |bs|, bs[i := c], bs[i], Next(|bs|, i);
    WordBounds(bs, hashes, i);
    NotFullCircle(bs, hashes, i, e);
    WordNext(n, hashes[d.value], i);
    HomeWordBound(n, hashes[d.value], i');
    OrderAfterPut(bs, hashes, c, i);
    ValuesAfterPut(bs, c, i);
    assert d.value in Values(bs) by { ValueIn(bs, i); }
    assert InOrder(bs, bs[i'], i');
    WordBounds(bs, hashes, i');
    assert Prev(n, i') == i;
  }

  lemma HomeWordBound(n: nat, hash: nat, i: nat)
    requires i < n <= MAX_NUM_BUCKETS
    ensures DIST_INC <= WordAt(n, hash, i) < WORD_LIMIT
  {
  }

  lemma ValueIn(bs: seq<Bucket>, i: nat)
    requires i < |bs| && !bs[i].Empty()
    ensures bs[i].value in Values(bs)
  {
  }

  lemma ShiftUpEnd(bs: seq<Bucket>, hashes: seq<nat>, c: Bucket, i: nat)
    requires Sorted(bs, hashes) && DistinctValues(bs) && Insertable(bs, hashes, c, i) && bs[i].Empty()
    ensures ValidBuckets(bs[i := c], hashes) && Values(bs[i := c]) == Values(bs) + {c.value}
  {
    hide WordAt, Values, HomeOf;
    var n, bs', j := |bs|, bs[i := c], Next(|bs|, i);
    OrderAfterPut(bs, hashes, c, i);
    HomeWordBound(n, hashes[c.value], i);
    ValuesAfterPut(bs, c, i);
    assert InOrder(bs, bs[j], j) && Prev(n, j) == i;
    WordBounds(bs', hashes, j);
    if bs'[j].Empty() {
      GapAnchors(bs', hashes, j, i);
    } else if j == i {
      OnlyBucket(hashes[c.value]);
      assert IsAnchor(bs', i);
    } else {
      assert IsAnchor(bs', j);
    }
  }

  lemma OnlyBucket(hash: nat)
    ensures WordAt(1, hash, 0) < 2 * DIST_INC
  {
  }

  /** Places a bucket and moves the displaced ones up until an empty bucket is reached. */
  method PlaceAndShiftUp(buckets: array<Bucket>, bucket: Bucket, loc: nat, ghost hashes: seq<nat>, ghost e: nat)
    requires ValidBuckets(buckets[..], hashes) && Insertable(buckets[..], hashes, bucket, loc)
    requires e < buckets.Length && buckets[e].Empty()
    modifies buckets
    ensures ValidBuckets(buckets[..], hashes)
    ensures Values(buckets[..]) == old(Values(buckets[..])) + {bucket.value}
    ensures loc < buckets.Length && buckets[loc] == bucket
  {
    hide Sorted, DistinctValues, Values, Insertable, Anchored;
    var carried, i := bucket, loc;
    ghost var all := Values(buckets[..]) + {bucket.value};
    InsertableIndex(buckets[..], hashes, carried, i);
    while buckets[i].word != 0
      invariant 0 <= i < buckets.Length && buckets[e].Empty()
      invariant Sorted(buckets[..], hashes) && DistinctValues(buckets[..])
      invariant Insertable(buckets[..], hashes, carried, i)
      invariant Values(buckets[..]) + {carried.value} == all
      invariant if i == loc then carried == bucket
                else buckets[loc] == bucket && Steps(buckets.Length, i, e) < Steps(buckets.Length, loc, e)
      decreases Steps(buckets.Length, i, e)
    {
      ShiftUpStep(buckets[..], hashes, carried, i, e);
      carried, buckets[i] := buckets[i], carried;
      carried := carried.PlusDist();
      i := Next(buckets.Length, i);
    }
    ShiftUpEnd(buckets[..], hashes, carried, i);
    buckets[i] := carried;
  }

  lemma InsertableIndex(bs: seq<Bucket>, hashes: seq<nat>, c: Bucket, i: nat)
    requires Insertable(bs, hashes, c, i)
    ensures i < |bs|
  {
  }

  // ----- removal

  /** One step of the shift: the next element moves one bucket closer to its home. */
  lemma ShiftDownStep(bs: seq<Bucket>, hashes: seq<nat>, i: nat, q: nat)
    requires Sorted(bs, hashes) && i < |bs| && !bs[i].Empty() && bs[Next(|bs|, i)].word >= 2 * DIST_INC
    requires IsAnchor(bs, q)
    ensures var next := Next(|bs|, i); var bs' := bs[i := bs[next].MinusDist()];
      && Sorted(bs', hashes) && IsAnchor(bs', q) && !bs'[next].Empty() && !bs'[i].Empty() && next != i
      && Steps(|bs|, Next(|bs|, next), q) < Steps(|bs|, next, q)
  {
    hide WordAt, HomeOf, Sorted, InOrder;
    var n, next := |bs|, Next(|bs|, i);
    WordBounds(bs, hashes, next);
    assert next != q && next != i;
    MovedPlaced(bs, hashes, i);
    MovedInOrder(bs, hashes, i);
  }

  lemma MovedPlaced(bs: seq<Bucket>, hashes: seq<nat>, i: nat)
    requires Sorted(bs, hashes) && i < |bs| && bs[Next(|bs|, i)].word >= 2 * DIST_INC
    ensures var moved := bs[Next(|bs|, i)].MinusDist();
            && DIST_INC <= moved.word == bs[Next(|bs|, i)].word - DIST_INC <= bs[i].word
            && Placed(bs[i := moved], hashes, moved, i)
  {
    hide WordAt, HomeOf;
    var n, next := |bs|, Next(|bs|, i);
    WordBounds(bs, hashes, next);
    WordBack(n, hashes[bs[next].value], next);
    assert Prev(n, next) == i && InOrder(bs, bs[next], next);
  }

  lemma MovedInOrder(bs: seq<Bucket>, hashes: seq<nat>, i: nat)
    requires Sorted(bs, hashes) && i < |bs| && !bs[i].Empty() && bs[Next(|bs|, i)].word >= 2 * DIST_INC
    requires Next(|bs|, i) != i
    ensures Sorted(bs[i := bs[Next(|bs|, i)].MinusDist()], hashes)
  {
    hide WordAt, HomeOf;
    var n, next := |bs|, Next(|bs|, i);
    var bs' := bs[i := bs[next].MinusDist()];
    MovedPlaced(bs, hashes, i);
    assert InOrder(bs, bs[next], next) && InOrder(bs, bs[i], i) && Prev(n, next) == i;
    forall j | 0 <= j < n
      ensures InOrder(bs', bs'[j], j) && (bs'[j].Empty() || Placed(bs', hashes, bs'[j], j))
    {
      assert InOrder(bs, bs[j], j);
    }
  }

  lemma WordBack(n: nat, hash: nat, i: nat)
    requires i < n && WordAt(n, hash, i) >= 2 * DIST_INC
    ensures WordAt(n, hash, Prev(n, i)) == WordAt(n, hash, i) - DIST_INC
  {
  }

  /** Moving the next element into the hole moves the hole and keeps the values. */
  lemma HoleMoves(bs: seq<Bucket>, i: nat, next: nat, moved: Bucket)
    requires i < |bs| && next < |bs| && i != next && !bs[next].Empty() && !moved.Empty()
    requires moved.value == bs[next].value
    requires DistinctValues(bs[i := EMPTY_BUCKET])
    ensures DistinctValues(bs[i := moved][next := EMPTY_BUCKET])
    ensures Values(bs[i := moved][next := EMPTY_BUCKET]) == Values(bs[i := EMPTY_BUCKET])
  {
    var v, v' := bs[i := EMPTY_BUCKET], bs[i := moved][next := EMPTY_BUCKET];
    assert forall j :: 0 <= j < |bs| && j != i && j != next ==> v'[j] == v[j] == bs[j];
    forall a, b | 0 <= a < b < |v'| && !v'[a].Empty() && !v'[b].Empty()
      ensures v'[a].value != v'[b].value
    {
      var a', b' := if a == i then next else a, if b == i then next else b;
      assert v[a'].value == v'[a].value && v[b'].value == v'[b].value && !v[a'].Empty() && !v[b'].Empty();
      assert a' < b' || b' < a';
    }
    forall x | x in Values(v)
      ensures x in Values(v')
    {
      var j :| 0 <= j < |v| && !v[j].Empty() && v[j].value == x;
      assert v'[if j == next then i else j].value == x;
    }
    forall x | x in Values(v')
      ensures x in Values(v)
    {
      var j :| 0 <= j < |v'| && !v'[j].Empty() && v'[j].value == x;
      assert v[if j == i then next else j].value == x;
    }
  }

  lemma ShiftDownEnd(bs: seq<Bucket>, hashes: seq<nat>, i: nat)
    requires Sorted(bs, hashes) && i < |bs| && bs[Next(|bs|, i)].word < 2 * DIST_INC
    requires DistinctValues(bs[i := EMPTY_BUCKET])
    ensures ValidBuckets(bs[i := EMPTY_BUCKET], hashes)
  {
    hide WordAt, HomeOf, DistinctValues;
    var v := bs[i := EMPTY_BUCKET];
    forall j | 0 <= j < |v|
      ensures InOrder(v, v[j], j) && (v[j].Empty() || Placed(v, hashes, v[j], j))
    {
      assert InOrder(bs, bs[j], j);
      assert Prev(|v|, j) == i ==> j == Next(|v|, i);
    }
    if x :| 0 <= x < |v| && !v[x].Empty() {
      GapAnchors(v, hashes, i, x);
    }
  }

  /** Removing the value of one bucket. */
  lemma HoleValues(bs: seq<Bucket>, i: nat)
    requires i < |bs| && DistinctValues(bs) && !bs[i].Empty()
    ensures DistinctValues(bs[i := EMPTY_BUCKET]) && Values(bs[i := EMPTY_BUCKET]) == Values(bs) - {bs[i].value}
  {
    var v := bs[i := EMPTY_BUCKET];
    assert forall j :: 0 <= j < |bs| && j != i ==> v[j] == bs[j];
    forall x | x in Values(bs) - {bs[i].value}
      ensures x in Values(v)
    {
      var j :| 0 <= j < |bs| && !bs[j].Empty() && bs[j].value == x;
      assert v[j].value == x;
    }
    forall x | x in Values(v)
      ensures x in Values(bs) - {bs[i].value}
    {
      var j :| 0 <= j < |v| && !v[j].Empty() && v[j].value == x;
      assert bs[j].value == x;
    }
  }

  /** Empties a bucket and moves the following ones down until one is empty or at home. */
  method EraseBucket(buckets: array<Bucket>, loc: nat, ghost hashes: seq<nat>)
    requires ValidBuckets(buckets[..], hashes) && loc < buckets.Length && !buckets[loc].Empty()
    modifies buckets
    ensures ValidBuckets(buckets[..], hashes)
    ensures Values(buckets[..]) == old(Values(buckets[..])) - {old(buckets[..])[loc].value}
  {
    hide Sorted, DistinctValues, Values;
    var n := buckets.Length;
    HoleValues(buckets[..], loc);
    ghost var all := Values(buckets[..][loc := EMPTY_BUCKET]);
    ghost var q :| IsAnchor(buckets[..], q);
    var i, next := loc, Next(n, loc);
    while buckets[next].word >= 2 * DIST_INC
      invariant 0 <= i < n && next == Next(n, i) && !buckets[i].Empty()
      invariant Sorted(buckets[..], hashes) && IsAnchor(buckets[..], q)
      invariant DistinctValues(buckets[..][i := EMPTY_BUCKET]) && Values(buckets[..][i := EMPTY_BUCKET]) == all
      decreases Steps(n, next, q)
    {
      ShiftDownStep(buckets[..], hashes, i, q);
      ghost var moved := buckets[next].MinusDist();
      HoleMoves(buckets[..], i, next, moved);
      buckets[i] := buckets[next].MinusDist();
      i, next := next, Next(n, next);
    }
    ShiftDownEnd(buckets[..], hashes, i);
    buckets[i] := EMPTY_BUCKET;
  }
}
