/**
  Advancing and receding an index that wraps around in a range, on 64-bit machine integers.
 */
module CircularIndexing {
  import opened Products

  const SIZE_LIMIT: nat := 0x1_0000_0000_0000_0000
  const SIGN_LIMIT: nat := 0x8000_0000_0000_0000

  datatype CyclesAndInteger = CyclesAndInteger(cycles: int, integer: nat)

  /** The closed-open range [start, end). */
  datatype Range = Range(start: nat, end: nat) {
    predicate Valid() { start <= end < SIZE_LIMIT }
    function Distance(): int { end - start }
  }

  /** Conversion to a signed 64-bit integer. */
  function Signed(x: int): int {
    var m := x % SIZE_LIMIT;
    if m < SIGN_LIMIT then m else m - SIZE_LIMIT
  }

  function Increment(range: Range, index: nat, n: nat): (r: CyclesAndInteger)
    requires range.Valid()
    requires if range.Distance() == 0 then index == 0 else range.start <= index + n < SIZE_LIMIT
    ensures range.Distance() > 0 ==> range.start <= r.integer < range.end
    ensures range.Distance() == 0 ==> r.cycles == 0 && r.integer == 0
  {
    if range.Distance() == 0 then CyclesAndInteger(0, 0)
    else
      var adjusted := index + n - range.start;
      var quotient := adjusted / range.Distance();
      Parts(adjusted, range.Distance());
      CyclesAndInteger(Signed(quotient), adjusted - quotient * range.Distance() + range.start)
  }

  /** How many whole rounds are added before `n` is taken away. */
  function Rounds(range: Range, n: nat): nat
    requires range.start < range.end
  {
    n / range.Distance() + 1
  }

  /** What receding by `n` adds instead. */
  function Lift(range: Range, n: nat): (r: nat)
    requires range.start < range.end
    ensures 0 < r <= range.Distance()
  {
    RoundsCover(range.Distance(), n);
    Rounds(range, n) * range.Distance() - n
  }

  function Decrement(range: Range, index: nat, n: nat): (r: CyclesAndInteger)
    requires range.Valid() && (range.Distance() == 0 ==> index == 0)
    requires range.Distance() > 0 ==> range.start <= index && n + Lift(range, n) < SIZE_LIMIT
    requires range.Distance() > 0 ==> index + Lift(range, n) < SIZE_LIMIT
    ensures range.Distance() == 0 ==> r.cycles == 0 && r.integer == 0
  {
    if range.Distance() == 0 then CyclesAndInteger(0, 0)
    else
      var r := Increment(range, index, Lift(range, n));
      r.(cycles := Signed(r.cycles - Signed(Rounds(range, n))))
  }

  lemma RoundsCover(d: int, n: nat)
    requires d > 0
    ensures 0 < (n / d + 1) * d - n <= d
  {
  }

  lemma SignedDifference(a: int, b: int)
    ensures Signed(Signed(a) - Signed(b)) == Signed(a - b)
  {
  }

  /** `integer` lies in the range and is `c` rounds away from `from`. */
  ghost predicate Wrapped(range: Range, from: int, c: int, integer: nat) {
    range.start <= integer < range.end && from == Times(c, range.Distance()) + integer
  }

  lemma IncrementWraps(range: Range, index: nat, n: nat)
    requires range.Valid() && index + n < SIZE_LIMIT && range.Distance() > 0 && range.start <= index + n
    ensures var r, c := Increment(range, index, n), (index + n - range.start) / range.Distance();
            Wrapped(range, index + n, c, r.integer) && r.cycles == Signed(c)
  {
  }

  lemma DecrementWraps(range: Range, index: nat, n: nat)
    requires range.Valid() && range.Distance() > 0 && range.start <= index
    requires n + Lift(range, n) < SIZE_LIMIT && index + Lift(range, n) < SIZE_LIMIT
    ensures exists c :: Wrapped(range, index - n, c, Decrement(range, index, n).integer)
                        && Decrement(range, index, n).cycles == Signed(c)
  {
    hide Increment, Signed, Times;
    var d, k := range.Distance(), Rounds(range, n);
    var up := Lift(range, n);
    IncrementWraps(range, index, up);
    var q := (index + up - range.start) / d;
    assert k * d == Times(k, d) by { TimesIs(k, d); }
    TimesLinear(q - k, k, d);
    SignedDifference(q, k);
    assert Wrapped(range, index - n, q - k, Decrement(range, index, n).integer);
  }

  /** Being a number of rounds away determines the place in the range. */
  lemma WrappedUnique(range: Range, from: int, c: int, c': int, i: nat, i': nat)
    requires Wrapped(range, from, c, i) && Wrapped(range, from, c', i')
    ensures i == i' && c == c'
  {
    hide Times;
    TimesLinear(c - c', c', range.Distance());
    TimesBound(c - c', range.Distance());
  }

  lemma WrappedShift(range: Range, from: int, c: int, i: nat, step: int, c': int, i': nat)
    requires Wrapped(range, from, c, i) && Wrapped(range, i + step, c', i')
    ensures Wrapped(range, from + step, c + c', i')
  {
    TimesLinear(c, c', range.Distance());
  }

  /** Advancing and receding by the same distance cancel out. */
  lemma DecrementUndoesIncrement(range: Range, index: nat, n: nat)
    requires range.Valid() && range.start <= index < range.end && index + n < SIZE_LIMIT
    requires n + Lift(range, n) < SIZE_LIMIT && range.end + Lift(range, n) <= SIZE_LIMIT
    ensures Decrement(range, Increment(range, index, n).integer, n).integer == index
  {
    hide Increment, Decrement, Times;
    var c := (index + n - range.start) / range.Distance();
    IncrementWraps(range, index, n);
    var i := Increment(range, index, n).integer;
    DecrementWraps(range, i, n);
    var c' :| Wrapped(range, i - n, c', Decrement(range, i, n).integer);
    WrappedShift(range, index + n, c, i, 0 - n, c', Decrement(range, i, n).integer);
    assert Wrapped(range, index, 0, index) by { NonNegative(0, range.Distance()); }
    WrappedUnique(range, index, 0, c + c', index, Decrement(range, i, n).integer);
  }

  /** Two advances are one advance by the sum. */
  lemma IncrementsAdd(range: Range, index: nat, a: nat, b: nat)
    requires range.Valid() && range.start <= index < range.end
    requires index + a + b < SIZE_LIMIT && range.end + b <= SIZE_LIMIT
    ensures Increment(range, Increment(range, index, a).integer, b).integer == Increment(range, index, a + b).integer
  {
    hide Increment;
    IncrementWraps(range, index, a);
    var i := Increment(range, index, a).integer;
    IncrementWraps(range, i, b);
    IncrementWraps(range, index, a + b);
    var d := range.Distance();
    var c, c', c'' := (index + a - range.start) / d, (i + b - range.start) / d, (index + (a + b) - range.start) / d;
    WrappedShift(range, index + a, c, i, b, c', Increment(range, i, b).integer);
    WrappedUnique(range, index + a + b, c + c', c'', Increment(range, i, b).integer,
                  Increment(range, index, a + b).integer);
  }

  // ----- the signed count of rounds

  /** The subtraction of the rounds leaves the signed 64-bit integers. */
  predicate CyclesOverflow(range: Range, index: nat, n: nat)
    requires range.Valid() && range.Distance() > 0 && range.start <= index
    requires n + Lift(range, n) < SIZE_LIMIT && index + Lift(range, n) < SIZE_LIMIT
  {
    var difference := Increment(range, index, Lift(range, n)).cycles - Signed(Rounds(range, n));
    difference + SIGN_LIMIT < 0 || difference >= SIGN_LIMIT
  }

  /** Receding by just under half of the index range overflows the count of rounds exactly in a range of
      size one and for an index below that distance. */
  lemma OverflowOnlyForOne(capacity: nat, index: nat)
    requires 0 < capacity < SIGN_LIMIT && index + Lift(Range(0, capacity), SIGN_LIMIT - 1) < SIZE_LIMIT
    ensures CyclesOverflow(Range(0, capacity), index, SIGN_LIMIT - 1) <==> capacity == 1 && index < SIGN_LIMIT - 1
  {
    if capacity == 1 {
      OverflowForOne(index);
    } else {
      NoOverflowForMore(capacity, index);
    }
  }

  lemma OverflowForOne(index: nat)
    requires index + 1 < SIZE_LIMIT
    ensures CyclesOverflow(Range(0, 1), index, SIGN_LIMIT - 1) <==> index < SIGN_LIMIT - 1
  {
    hide Signed, Increment;
    RoundsCover(1, SIGN_LIMIT - 1);
    IncrementWraps(Range(0, 1), index, 1);
    SignedSmall(index + 1);
    SignedSmall(SIGN_LIMIT);
  }

  lemma SignedSmall(x: nat)
    requires x < SIZE_LIMIT
    ensures Signed(x) == if x < SIGN_LIMIT then x else x - SIZE_LIMIT
  {
  }

  lemma NoOverflowForMore(capacity: nat, index: nat)
    requires 1 < capacity < SIGN_LIMIT && index + Lift(Range(0, capacity), SIGN_LIMIT - 1) < SIZE_LIMIT
    ensures !CyclesOverflow(Range(0, capacity), index, SIGN_LIMIT - 1)
  {
    hide Signed, Increment;
    var r, n := Range(0, capacity), SIGN_LIMIT - 1;
    var up := Lift(r, n);
    IncrementWraps(r, index, up);
    HalfAtMost(n, capacity);
    HalfAtMost(index + up, capacity);
    SignedSmall((index + up) / capacity);
    SignedSmall(Rounds(r, n));
  }

  lemma HalfAtMost(x: nat, d: nat)
    requires d > 1
    ensures 0 <= x / d && x / d * 2 <= x
  {
    var q := x / d;
    assert x == q * d + x % d;
    TwiceAtMost(q, d);
  }

  lemma TwiceAtMost(q: nat, d: nat)
    requires d > 1
    ensures q * 2 <= q * d
  {
  }

  /** One step below the deque's offset, in a range of size one. */
  lemma OverflowExample()
    ensures Lift(Range(0, 1), SIGN_LIMIT - 1) == 1 && CyclesOverflow(Range(0, 1), SIGN_LIMIT - 2, SIGN_LIMIT - 1)
  {
    hide CyclesOverflow;
    OverflowOnlyForOne(1, SIGN_LIMIT - 2);
  }
}
