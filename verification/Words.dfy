/**
  Machine words as the sequences of their bits, the least significant bit first, and what the machine
  operations do to their values.
 */
module Words {
  import opened Products

  type Word = seq<bool>

  function Zeros(width: nat): (r: Word)
    ensures |r| == width && forall i :: 0 <= i < width ==> !r[i]
  {
    seq(width, _ => false)
  }

  function Ones(width: nat): (r: Word)
    ensures |r| == width && forall i :: 0 <= i < width ==> r[i]
  {
    seq(width, _ => true)
  }

  function Not(w: Word): (r: Word)
    ensures |r| == |w| && forall i :: 0 <= i < |w| ==> r[i] == !w[i]
  {
    seq(|w|, i requires 0 <= i < |w| => !w[i])
  }

  function And(a: Word, b: Word): (r: Word)
    requires |a| == |b|
    ensures |r| == |a| && forall i :: 0 <= i < |a| ==> r[i] == (a[i] && b[i])
  {
    seq(|a|, i requires 0 <= i < |a| => a[i] && b[i])
  }

  function Or(a: Word, b: Word): (r: Word)
    requires |a| == |b|
    ensures |r| == |a| && forall i :: 0 <= i < |a| ==> r[i] == (a[i] || b[i])
  {
    seq(|a|, i requires 0 <= i < |a| => a[i] || b[i])
  }

  function Xor(a: Word, b: Word): (r: Word)
    requires |a| == |b|
    ensures |r| == |a| && forall i :: 0 <= i < |a| ==> r[i] == (a[i] != b[i])
  {
    seq(|a|, i requires 0 <= i < |a| => a[i] != b[i])
  }

  function ShiftUp(w: Word, k: nat): (r: Word)
    requires k <= |w|
    ensures |r| == |w| && forall i :: 0 <= i < |w| ==> r[i] == (i >= k && w[i - k])
  {
    Zeros(k) + w[..|w| - k]
  }

  function ShiftDown(w: Word, k: nat): (r: Word)
    requires k <= |w|
    ensures |r| == |w| && forall i :: 0 <= i < |w| ==> r[i] == (i + k < |w| && w[i + k])
  {
    w[k..] + Zeros(k)
  }

  /** The single bit 1 << k. */
  function Bit(width: nat, k: nat): (r: Word)
    requires k < width
    ensures |r| == width && forall i :: 0 <= i < width ==> r[i] == (i == k)
  {
    Zeros(width)[k := true]
  }

  /** The mask (1 << k) - 1. */
  function LowMask(width: nat, k: nat): (r: Word)
    requires k <= width
    ensures |r| == width && forall i :: 0 <= i < width ==> r[i] == (i < k)
  {
    Ones(k) + Zeros(width - k)
  }

  function PopCount(w: Word): nat {
    if w == [] then 0 else PopCount(w[..|w| - 1]) + if w[|w| - 1] then 1 else 0
  }

  lemma {:induction false} PopCountConcat(a: Word, b: Word)
    ensures PopCount(a + b) == PopCount(a) + PopCount(b)
  {
    if b == [] {
      assert a + b == a;
    } else {
      assert (a + b)[..|a + b| - 1] == a + b[..|b| - 1];
      PopCountConcat(a, b[..|b| - 1]);
    }
  }

  lemma {:induction false} PopCountZeros(n: nat)
    ensures PopCount(Zeros(n)) == 0
  {
    if n > 0 {
      assert Zeros(n)[..n - 1] == Zeros(n - 1);
      PopCountZeros(n - 1);
    }
  }

  /** The positions of the set bits. */
  ghost function SetBits(w: Word): set<nat> { set i: nat | i < |w| && w[i] }

  /** The count is the number of set bits. */
  lemma {:induction false} PopCountIsCardinality(w: Word)
    ensures PopCount(w) == |set i: nat | i < |w| && w[i]|
  {
    if w == [] {
      assert SetBits(w) == {};
    } else {
      var k := |w| - 1;
      PopCountIsCardinality(w[..k]);
      assert SetBits(w) == SetBits(w[..k]) + if w[k] then {k} else {};
    }
  }

  // ----- values

  function Value(w: Word): nat {
    if w == [] then 0 else (if w[0] then 1 else 0) + 2 * Value(w[1..])
  }

  /** Words of one width are equal exactly if their values are. */
  lemma {:induction false} ValueInjective(a: Word, b: Word)
    requires |a| == |b|
    ensures Value(a) == Value(b) <==> a == b
  {
    if a != [] {
      ValueInjective(a[1..], b[1..]);
      assert a == [a[0]] + a[1..] && b == [b[0]] + b[1..];
    }
  }

  lemma {:induction false} ValueConcat(a: Word, b: Word)
    ensures Value(a + b) == Value(a) + Pow2(|a|) * Value(b)
  {
    if a == [] {
      assert a + b == b;
    } else {
      hide *;
      ValueStep(a, b);
      ValueConcat(a[1..], b);
      DoubleProduct(Pow2(|a| - 1), Value(b));
    }
  }

  lemma ValueStep(a: Word, b: Word)
    requires a != []
    ensures Value(a + b) - Value(a) == 2 * (Value(a[1..] + b) - Value(a[1..]))
    ensures Pow2(|a|) == 2 * Pow2(|a| - 1)
  {
    assert (a + b)[1..] == a[1..] + b;
  }

  lemma DoubleProduct(p: nat, v: nat)
    ensures (2 * p) * v == 2 * (p * v)
  {
  }

  lemma Distribute(x: nat, p: nat, l: nat, k: nat)
    ensures (x + p * l) * k == k * x + l * (p * k)
  {
  }

  lemma {:induction false} ValueZeros(n: nat)
    ensures Value(Zeros(n)) == 0
  {
    if n > 0 {
      assert Zeros(n)[1..] == Zeros(n - 1);
      ValueZeros(n - 1);
    }
  }

  lemma {:induction false} ValueOnes(n: nat)
    ensures Value(Ones(n)) + 1 == Pow2(n)
  {
    if n > 0 {
      assert Ones(n)[1..] == Ones(n - 1);
      ValueOnes(n - 1);
    }
  }

  lemma {:induction false} ValueBound(w: Word)
    ensures Value(w) < Pow2(|w|)
  {
    if w != [] {
      ValueBound(w[1..]);
    }
  }

  /** The mask is the number it stands for. */
  lemma MaskValue(width: nat, k: nat)
    requires k <= width
    ensures Value(LowMask(width, k)) + 1 == Pow2(k)
  {
    ValueConcat(Ones(k), Zeros(width - k));
    ValueOnes(k);
    ValueZeros(width - k);
  }

  /** Shifting up multiplies and drops what leaves the word. */
  lemma ShiftUpValue(w: Word, k: nat)
    requires k <= |w|
    ensures Value(w) * Pow2(k) == Value(ShiftUp(w, k)) + Value(w[|w| - k..]) * Pow2(|w|)
    ensures Value(ShiftUp(w, k)) < Pow2(|w|)
  {
    hide *;
    SplitValue(w, |w| - k);
    ShiftUpParts(w, k);
    ShiftedProduct(Value(w[..|w| - k]), Value(w[|w| - k..]), |w| - k, k);
  }

  lemma SplitValue(w: Word, i: nat)
    requires i <= |w|
    ensures Value(w) == Value(w[..i]) + Pow2(i) * Value(w[i..])
  {
    assert w == w[..i] + w[i..];
    ValueConcat(w[..i], w[i..]);
  }

  lemma ShiftUpParts(w: Word, k: nat)
    requires k <= |w|
    ensures Value(ShiftUp(w, k)) == Pow2(k) * Value(w[..|w| - k]) && Value(ShiftUp(w, k)) < Pow2(|w|)
  {
    ValueConcat(Zeros(k), w[..|w| - k]);
    ValueZeros(k);
    ValueBound(ShiftUp(w, k));
  }

  lemma ShiftedProduct(low: nat, high: nat, a: nat, b: nat)
    ensures (low + Pow2(a) * high) * Pow2(b) == Pow2(b) * low + high * Pow2(a + b)
  {
    hide *;
    Pow2Sum(a, b);
    Distribute(low, Pow2(a), high, Pow2(b));
  }

  /** Shifting down divides and drops the remainder. */
  lemma ShiftDownValue(w: Word, k: nat)
    requires k <= |w|
    ensures Value(w) == Pow2(k) * Value(ShiftDown(w, k)) + Value(w[..k]) && Value(w[..k]) < Pow2(k)
  {
    SplitValue(w, k);
    assert Value(ShiftDown(w, k)) == Value(w[k..]) by {
      ValueConcat(w[k..], Zeros(k));
      ValueZeros(k);
    }
    ValueBound(w[..k]);
  }

  // ----- the word of a value

  /** The `width` lowest binary digits of `n`. */
  function Digits(n: nat, width: nat): (r: Word)
    ensures |r| == width
  {
    if width == 0 then [] else [n % 2 == 1] + Digits(n / 2, width - 1)
  }

  lemma {:induction false} DigitsValue(n: nat, width: nat)
    requires n < Pow2(width)
    ensures Value(Digits(n, width)) == n
  {
    if width > 0 {
      DigitsValue(n / 2, width - 1);
      assert Digits(n, width)[1..] == Digits(n / 2, width - 1);
    }
  }

  /** The top bit is clear exactly in the lower half of the values. */
  lemma TopBit(w: Word)
    requires w != []
    ensures !w[|w| - 1] <==> Value(w) < Pow2(|w| - 1)
  {
    var k := |w| - 1;
    SplitValue(w, k);
    ValueBound(w[..k]);
    assert w[k..] == [w[k]];
    assert Value(w[k..]) == if w[k] then 1 else 0;
  }
}
