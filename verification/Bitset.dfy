/**
  The bitset: a sequence of bits in an array of words. The bits of the last word beyond the length are
  padding and stay zero.
 */
module Bitset {
  import opened Products
  import opened Words

  function WidthFor(bits: nat): nat { if bits <= 32 then 32 else 64 }

  /** The index of the last word. */
  function LastWord(bits: nat): nat { if bits == 0 then 0 else (bits - 1) / WidthFor(bits) }

  // ----- the bits of an array of words

  ghost predicate Shape(ws: seq<Word>, width: nat) {
    width > 0 && forall j :: 0 <= j < |ws| ==> |ws[j]| == width
  }

  /** Bit `i` of the array. */
  ghost function View(ws: seq<Word>, width: nat, i: nat): bool
    requires Shape(ws, width) && i < Times(|ws|, width)
  {
    InWord(|ws|, width, i);
    ws[i / width][i % width]
  }

  lemma InWord(n: nat, width: nat, i: nat)
    requires width > 0 && i < Times(n, width)
    ensures 0 <= i / width < n && i == Times(i / width, width) + i % width && 0 <= i % width < width
  {
    hide Times;
    Parts(i, width);
    if i / width >= n {
      TimesMonotone(n, i / width, width);
    }
  }

  lemma ViewAt(ws: seq<Word>, width: nat, i: nat, j: nat, k: nat)
    requires Shape(ws, width) && j < |ws| && k < width && i == Times(j, width) + k
    ensures i < Times(|ws|, width) && View(ws, width, i) == ws[j][k]
  {
    hide Times;
    TimesMonotone(j + 1, |ws|, width);
    TimesLinear(j, 1, width);
    NonNegative(1, width);
    PartsUnique(i, width, j, k);
  }

  /** The bits beyond the length are zero. */
  ghost predicate Padded(ws: seq<Word>, bits: nat) {
    var width := WidthFor(bits);
    && Shape(ws, width) && |ws| == LastWord(bits) + 1 && bits <= Times(|ws|, width)
    && forall i :: bits <= i < Times(|ws|, width) ==> !View(ws, width, i)
  }

  ghost function Bits(ws: seq<Word>, bits: nat): (s: seq<bool>)
    requires Shape(ws, WidthFor(bits)) && bits <= Times(|ws|, WidthFor(bits))
    ensures |s| == bits && forall i :: 0 <= i < bits ==> s[i] == View(ws, WidthFor(bits), i)
  {
    seq(bits, i requires 0 <= i < bits => View(ws, WidthFor(bits), i))
  }

  // ----- shifts of whole arrays

  function UpperWord(ws: seq<Word>, width: nat, q: nat, j: nat): Word
    requires j < |ws|
  {
    if q <= j then ws[j - q] else Zeros(width)
  }

  function UpByWords(ws: seq<Word>, width: nat, q: nat): (r: seq<Word>)
    ensures |r| == |ws| && forall j :: 0 <= j < |ws| ==> r[j] == UpperWord(ws, width, q, j)
  {
    seq(|ws|, j requires 0 <= j < |ws| => UpperWord(ws, width, q, j))
  }

  /** The upper of two words, shifted up with the bits that the lower one carries over. */
  function CarryUp(lower: Word, upper: Word, p: nat): (r: Word)
    requires |lower| == |upper| && p <= |upper|
    ensures |r| == |upper| && forall k :: 0 <= k < |r| ==> r[k] == if k >= p then upper[k - p] else lower[k + |r| - p]
  {
    Or(ShiftUp(upper, p), ShiftDown(lower, |upper| - p))
  }

  ghost function UpWord(ws: seq<Word>, width: nat, p: nat, j: nat): Word
    requires Shape(ws, width) && p <= width && j < |ws|
  {
    if j == 0 then ShiftUp(ws[0], p) else CarryUp(ws[j - 1], ws[j], p)
  }

  ghost function UpByBits(ws: seq<Word>, width: nat, p: nat): (r: seq<Word>)
    requires Shape(ws, width) && p <= width
    ensures |r| == |ws| && forall j :: 0 <= j < |ws| ==> r[j] == UpWord(ws, width, p, j)
  {
    seq(|ws|, j requires 0 <= j < |ws| => UpWord(ws, width, p, j))
  }

  function LowerWord(ws: seq<Word>, width: nat, q: nat, j: nat): Word
    requires j < |ws|
  {
    if q < |ws| - j then ws[j + q] else Zeros(width)
  }

  function DownByWords(ws: seq<Word>, width: nat, q: nat): (r: seq<Word>)
    ensures |r| == |ws| && forall j :: 0 <= j < |ws| ==> r[j] == LowerWord(ws, width, q, j)
  {
    seq(|ws|, j requires 0 <= j < |ws| => LowerWord(ws, width, q, j))
  }

  /** The lower of two words, shifted down with the bits that the upper one carries over. */
  function CarryDown(lower: Word, upper: Word, p: nat): (r: Word)
    requires |lower| == |upper| && p <= |lower|
    ensures |r| == |lower|
    ensures forall k :: 0 <= k < |r| ==> r[k] == if k + p < |r| then lower[k + p] else upper[k + p - |r|]
  {
    Or(ShiftDown(lower, p), ShiftUp(upper, |lower| - p))
  }

  ghost function DownWord(ws: seq<Word>, width: nat, p: nat, j: nat): Word
    requires Shape(ws, width) && p <= width && j < |ws|
  {
    if j == |ws| - 1 then ShiftDown(ws[j], p) else CarryDown(ws[j], ws[j + 1], p)
  }

  ghost function DownByBits(ws: seq<Word>, width: nat, p: nat): (r: seq<Word>)
    requires Shape(ws, width) && p <= width
    ensures |r| == |ws| && forall j :: 0 <= j < |ws| ==> r[j] == DownWord(ws, width, p, j)
  {
    seq(|ws|, j requires 0 <= j < |ws| => DownWord(ws, width, p, j))
  }

  lemma ViewUpByWords(ws: seq<Word>, width: nat, q: nat, i: nat)
    requires Shape(ws, width) && i < Times(|ws|, width)
    ensures Shape(UpByWords(ws, width, q), width) && 0 <= Times(q, width)
    ensures View(UpByWords(ws, width, q), width, i) == (i >= Times(q, width) && View(ws, width, i - Times(q, width)))
  {
    hide Times;
    InWord(|ws|, width, i);
    var j, k, r := i / width, i % width, UpByWords(ws, width, q);
    NonNegative(q, width);
    ViewAt(r, width, i, j, k);
    if q <= j {
      TimesLinear(j - q, q, width);
      NonNegative(j - q, width);
      ViewAt(ws, width, i - Times(q, width), j - q, k);
    } else {
      TimesMonotone(j + 1, q, width);
      TimesLinear(j, 1, width);
      NonNegative(1, width);
    }
  }

  lemma UpWordBits(ws: seq<Word>, width: nat, p: nat, j: nat, k: nat)
    requires Shape(ws, width) && p <= width && j < |ws| && k < width
    ensures |UpWord(ws, width, p, j)| == width
    ensures UpWord(ws, width, p, j)[k] == if k >= p then ws[j][k - p] else j > 0 && ws[j - 1][k + width - p]
  {
    hide CarryUp, ShiftUp;
    if j == 0 {
      assert UpWord(ws, width, p, j) == ShiftUp(ws[0], p);
    } else {
      assert UpWord(ws, width, p, j) == CarryUp(ws[j - 1], ws[j], p);
    }
  }

  lemma UpByBitsShape(ws: seq<Word>, width: nat, p: nat)
    requires Shape(ws, width) && p <= width
    ensures Shape(UpByBits(ws, width, p), width) && |UpByBits(ws, width, p)| == |ws|
  {
  }

  lemma ViewUpByBits(ws: seq<Word>, width: nat, p: nat, i: nat)
    requires Shape(ws, width) && p <= width && i < Times(|ws|, width)
    ensures Shape(UpByBits(ws, width, p), width)
    ensures View(UpByBits(ws, width, p), width, i) == (i >= p && View(ws, width, i - p))
  {
    hide Times, View, UpWord;
    InWord(|ws|, width, i);
    UpByBitsShape(ws, width, p);
    var j, k, r := i / width, i % width, UpByBits(ws, width, p);
    UpWordBits(ws, width, p, j, k);
    ViewAt(r, width, i, j, k);
    NonNegative(j, width);
    if k >= p {
      ViewAt(ws, width, i - p, j, k - p);
    } else if j > 0 {
      TimesLinear(j - 1, 1, width);
      NonNegative(j - 1, width);
      ViewAt(ws, width, i - p, j - 1, k - p + width);
    }
  }

  lemma ViewDownByWords(ws: seq<Word>, width: nat, q: nat, i: nat)
    requires Shape(ws, width) && i < Times(|ws|, width)
    ensures Shape(DownByWords(ws, width, q), width) && 0 <= Times(q, width)
    ensures View(DownByWords(ws, width, q), width, i) ==
            (i + Times(q, width) < Times(|ws|, width) && View(ws, width, i + Times(q, width)))
  {
    hide Times;
    InWord(|ws|, width, i);
    var j, k, r := i / width, i % width, DownByWords(ws, width, q);
    NonNegative(q, width);
    ViewAt(r, width, i, j, k);
    TimesLinear(j, q, width);
    if q < |ws| - j {
      ViewAt(ws, width, i + Times(q, width), j + q, k);
    } else {
      TimesMonotone(|ws|, j + q, width);
    }
  }

  lemma DownWordBits(ws: seq<Word>, width: nat, p: nat, j: nat, k: nat)
    requires Shape(ws, width) && p <= width && j < |ws| && k < width
    ensures |DownWord(ws, width, p, j)| == width
    ensures DownWord(ws, width, p, j)[k] ==
            if k + p < width then ws[j][k + p] else j + 1 < |ws| && ws[j + 1][k + p - width]
  {
    hide CarryDown, ShiftDown;
    if j == |ws| - 1 {
      assert DownWord(ws, width, p, j) == ShiftDown(ws[j], p);
    } else {
      assert DownWord(ws, width, p, j) == CarryDown(ws[j], ws[j + 1], p);
    }
  }

  lemma DownByBitsShape(ws: seq<Word>, width: nat, p: nat)
    requires Shape(ws, width) && p <= width
    ensures Shape(DownByBits(ws, width, p), width) && |DownByBits(ws, width, p)| == |ws|
  {
  }

  lemma ViewDownByBits(ws: seq<Word>, width: nat, p: nat, i: nat)
    requires Shape(ws, width) && p <= width && i < Times(|ws|, width)
    ensures Shape(DownByBits(ws, width, p), width)
    ensures View(DownByBits(ws, width, p), width, i) == (i + p < Times(|ws|, width) && View(ws, width, i + p))
  {
    hide Times, View, DownWord;
    InWord(|ws|, width, i);
    DownByBitsShape(ws, width, p);
    var j, k, r := i / width, i % width, DownByBits(ws, width, p);
    DownWordBits(ws, width, p, j, k);
    ViewAt(r, width, i, j, k);
    TimesLinear(j, 1, width);
    NonNegative(1, width);
    if k + p < width {
      ViewAt(ws, width, i + p, j, k + p);
    } else if j + 1 < |ws| && k + p < 2 * width {
      ViewAt(ws, width, i + p, j + 1, k + p - width);
    }
  }

  lemma NoShift(ws: seq<Word>, width: nat)
    requires Shape(ws, width)
    ensures UpByWords(ws, width, 0) == ws && DownByWords(ws, width, 0) == ws
  {
  }

  lemma NoBitShift(ws: seq<Word>, width: nat)
    requires Shape(ws, width)
    ensures UpByBits(ws, width, 0) == ws && DownByBits(ws, width, 0) == ws
  {
    hide UpWord, DownWord;
    forall j | 0 <= j < |ws|
      ensures UpWord(ws, width, 0, j) == ws[j] && DownWord(ws, width, 0, j) == ws[j]
    {
      UpWordBits(ws, width, 0, j, 0);
      DownWordBits(ws, width, 0, j, 0);
      forall k | 0 <= k < width
        ensures UpWord(ws, width, 0, j)[k] == ws[j][k] && DownWord(ws, width, 0, j)[k] == ws[j][k]
      {
        UpWordBits(ws, width, 0, j, k);
        DownWordBits(ws, width, 0, j, k);
      }
    }
  }

  // ----- padding

  lemma Layout(bits: nat)
    ensures var width, last := WidthFor(bits), LastWord(bits);
      && bits <= Times(last + 1, width) && (bits > 0 ==> Times(last, width) < bits)
      && Times(last + 1, width) == Times(last, width) + width && Times(last, width) >= 0
      && (bits == 0 ==> last == 0)
      && (bits % width == 0 && bits > 0 ==> bits == Times(last + 1, width))
      && (bits % width != 0 ==> bits == Times(last, width) + bits % width)
  {
    hide Times;
    var width, last := WidthFor(bits), LastWord(bits);
    TimesLinear(last, 1, width);
    NonNegative(last, width);
    if bits > 0 {
      Parts(bits - 1, width);
      var r := (bits - 1) % width;
      if r + 1 == width {
        PartsUnique(bits, width, last + 1, 0);
      } else {
        PartsUnique(bits, width, last, r + 1);
      }
    }
  }

  /** The words with the padding cleared. */
  function Trimmed(ws: seq<Word>, bits: nat): seq<Word>
    requires |ws| == LastWord(bits) + 1 && |ws[|ws| - 1]| == WidthFor(bits)
  {
    if bits == 0 || bits % WidthFor(bits) != 0 then
      ws[|ws| - 1 := And(ws[|ws| - 1], LowMask(WidthFor(bits), bits % WidthFor(bits)))]
    else ws
  }

  lemma ViewTrimmed(ws: seq<Word>, bits: nat, i: nat)
    requires Shape(ws, WidthFor(bits)) && |ws| == LastWord(bits) + 1 && i < Times(|ws|, WidthFor(bits))
    ensures Shape(Trimmed(ws, bits), WidthFor(bits))
    ensures View(Trimmed(ws, bits), WidthFor(bits), i) == (i < bits && View(ws, WidthFor(bits), i))
  {
    hide Times, View;
    var width, last, r := WidthFor(bits), |ws| - 1, Trimmed(ws, bits);
    Layout(bits);
    InWord(|ws|, width, i);
    var j, k := i / width, i % width;
    ViewAt(r, width, i, j, k);
    ViewAt(ws, width, i, j, k);
    if j < last {
      TimesMonotone(j + 1, last, width);
      TimesLinear(j, 1, width);
      NonNegative(1, width);
    }
  }

  // ----- shifts of the bit sequence

  function ShiftedUp(s: seq<bool>, n: nat): (r: seq<bool>)
    ensures |r| == |s| && forall i :: 0 <= i < |s| ==> r[i] == (i >= n && s[i - n])
  {
    seq(|s|, i requires 0 <= i < |s| => i >= n && s[i - n])
  }

  function ShiftedDown(s: seq<bool>, n: nat): (r: seq<bool>)
    ensures |r| == |s| && forall i :: 0 <= i < |s| ==> r[i] == (i + n < |s| && s[i + n])
  {
    seq(|s|, i requires 0 <= i < |s| => i + n < |s| && s[i + n])
  }

  /** Shifting by words, then by bits, is shifting by the sum. */
  lemma UpView(ws: seq<Word>, width: nat, n: nat, i: nat)
    requires Shape(ws, width) && i < Times(|ws|, width)
    ensures Shape(UpByWords(ws, width, n / width), width)
    ensures var r := UpByBits(UpByWords(ws, width, n / width), width, n % width);
            Shape(r, width) && View(r, width, i) == (i >= n && View(ws, width, i - n))
  {
    hide Times, View, UpByBits, UpByWords;
    Parts(n, width);
    var q, p, r := n / width, n % width, UpByWords(ws, width, n / width);
    ViewUpByWords(ws, width, q, i);
    UpByWordsSize(ws, width, q);
    ViewUpByBits(r, width, p, i);
    if i >= p {
      ViewUpByWords(ws, width, q, i - p);
    }
  }

  lemma UpByWordsSize(ws: seq<Word>, width: nat, q: nat)
    ensures |UpByWords(ws, width, q)| == |ws| == |DownByWords(ws, width, q)|
  {
  }

  lemma DownView(ws: seq<Word>, width: nat, n: nat, i: nat)
    requires Shape(ws, width) && i < Times(|ws|, width)
    ensures Shape(DownByWords(ws, width, n / width), width)
    ensures var r := DownByBits(DownByWords(ws, width, n / width), width, n % width);
            Shape(r, width) && View(r, width, i) == (i + n < Times(|ws|, width) && View(ws, width, i + n))
  {
    hide Times, View, DownByBits, DownByWords;
    Parts(n, width);
    var q, p, r := n / width, n % width, DownByWords(ws, width, n / width);
    ViewDownByWords(ws, width, q, i);
    UpByWordsSize(ws, width, q);
    ViewDownByBits(r, width, p, i);
    if i + p < Times(|ws|, width) {
      ViewDownByWords(ws, width, q, i + p);
    }
  }

  lemma UpMeansShiftedUp(ws: seq<Word>, bits: nat, n: nat)
    requires Padded(ws, bits)
    ensures Shape(UpByWords(ws, WidthFor(bits), n / WidthFor(bits)), WidthFor(bits))
    ensures var r := UpByBits(UpByWords(ws, WidthFor(bits), n / WidthFor(bits)), WidthFor(bits), n % WidthFor(bits));
      && |r| == |ws| && Shape(r, WidthFor(bits)) && Padded(Trimmed(r, bits), bits)
      && Bits(Trimmed(r, bits), bits) == ShiftedUp(Bits(ws, bits), n)
  {
    hide Times, View, UpByBits, UpByWords, Trimmed, LastWord;
    var width := WidthFor(bits);
    Layout(bits);
    UpView(ws, width, n, 0);
    var u := UpByWords(ws, width, n / width);
    UpByWordsSize(ws, width, n / width);
    UpByBitsShape(u, width, n % width);
    var r := UpByBits(u, width, n % width);
    TrimmedBits(r, bits);
    forall i | 0 <= i < bits
      ensures View(r, width, i) == (i >= n && View(ws, width, i - n))
    {
      UpView(ws, width, n, i);
    }
    assert Bits(r, bits) == ShiftedUp(Bits(ws, bits), n);
  }

  lemma DownMeansShiftedDown(ws: seq<Word>, bits: nat, n: nat)
    requires Padded(ws, bits)
    ensures Shape(DownByWords(ws, WidthFor(bits), n / WidthFor(bits)), WidthFor(bits))
    ensures var width := WidthFor(bits);
      var r := DownByBits(DownByWords(ws, width, n / width), width, n % width);
      && Padded(r, bits) && Bits(r, bits) == ShiftedDown(Bits(ws, bits), n)
  {
    hide Times, View, DownByBits, DownByWords;
    var width := WidthFor(bits);
    Layout(bits);
    DownView(ws, width, n, 0);
    var u := DownByWords(ws, width, n / width);
    UpByWordsSize(ws, width, n / width);
    DownByBitsShape(u, width, n % width);
    var r := DownByBits(u, width, n % width);
    forall i | 0 <= i < Times(|ws|, width)
      ensures View(r, width, i) == (i + n < Times(|ws|, width) && View(ws, width, i + n))
    {
      DownView(ws, width, n, i);
    }
  }

  // ----- equality and counting

  /** Words with the same bits are the same. */
  lemma SameWords(ws: seq<Word>, ws': seq<Word>, bits: nat)
    requires Padded(ws, bits) && Padded(ws', bits)
    ensures ws == ws' <==> Bits(ws, bits) == Bits(ws', bits)
  {
    hide Times;
    var width := WidthFor(bits);
    if Bits(ws, bits) == Bits(ws', bits) {
      forall j | 0 <= j < |ws|
        ensures ws[j] == ws'[j]
      {
        forall k | 0 <= k < width
          ensures ws[j][k] == ws'[j][k]
        {
          NonNegative(j, width);
          var i := Times(j, width) + k;
          ViewAt(ws, width, i, j, k);
          ViewAt(ws', width, i, j, k);
          assert i < bits ==> Bits(ws, bits)[i] == Bits(ws', bits)[i];
        }
      }
    }
  }

  ghost function Flat(ws: seq<Word>): Word {
    if ws == [] then [] else Flat(ws[..|ws| - 1]) + ws[|ws| - 1]
  }

  function PopSum(ws: seq<Word>): nat {
    if ws == [] then 0 else PopSum(ws[..|ws| - 1]) + PopCount(ws[|ws| - 1])
  }

  lemma {:induction false} FlatCount(ws: seq<Word>)
    ensures PopCount(Flat(ws)) == PopSum(ws)
  {
    if ws != [] {
      FlatCount(ws[..|ws| - 1]);
      PopCountConcat(Flat(ws[..|ws| - 1]), ws[|ws| - 1]);
    }
  }

  lemma {:induction false} FlatAt(ws: seq<Word>, width: nat)
    requires Shape(ws, width)
    ensures |Flat(ws)| == Times(|ws|, width)
    ensures forall i :: 0 <= i < Times(|ws|, width) ==> Flat(ws)[i] == View(ws, width, i)
  {
    hide Times, View;
    NonNegative(0, width);
    if ws != [] {
      var front, n := ws[..|ws| - 1], |ws| - 1;
      FlatAt(front, width);
      TimesLinear(n, 1, width);
      NonNegative(n, width);
      forall i | 0 <= i < Times(|ws|, width)
        ensures Flat(ws)[i] == View(ws, width, i)
      {
        if i < Times(n, width) {
          InWord(n, width, i);
          ViewAt(front, width, i, i / width, i % width);
          ViewAt(ws, width, i, i / width, i % width);
        } else {
          ViewAt(ws, width, i, n, i - Times(n, width));
        }
      }
    }
  }

  /** Padding does not count. */
  lemma CountExact(ws: seq<Word>, bits: nat)
    requires Padded(ws, bits)
    ensures PopSum(ws) == PopCount(Bits(ws, bits))
  {
    hide Times, View;
    var width := WidthFor(bits);
    FlatAt(ws, width);
    FlatCount(ws);
    var pad := Times(|ws|, width) - bits;
    assert Flat(ws) == Bits(ws, bits) + Zeros(pad);
    PopCountConcat(Bits(ws, bits), Zeros(pad));
    PopCountZeros(pad);
  }

  // ----- strings

  /** The bits that a string stands for: its first `bits` characters, the last of them for bit 0. */
  function Parsed(str: string, bits: nat, one: char): (r: seq<bool>)
    ensures |r| == bits
    ensures var count := if |str| < bits then |str| else bits;
            forall i :: 0 <= i < bits ==> r[i] == (i < count && str[count - 1 - i] == one)
  {
    var count := if |str| < bits then |str| else bits;
    seq(bits, i requires 0 <= i < bits => i < count && str[count - 1 - i] == one)
  }

  function Printed(s: seq<bool>, zero: char, one: char): (r: string)
    ensures |r| == |s| && forall i :: 0 <= i < |s| ==> r[i] == if s[|s| - 1 - i] then one else zero
  {
    seq(|s|, i requires 0 <= i < |s| => if s[|s| - 1 - i] then one else zero)
  }

  /** Printing and parsing are inverse, unless zero and one look the same. */
  lemma ParsedPrinted(s: seq<bool>, zero: char, one: char)
    ensures Parsed(Printed(s, zero, one), |s|, one) == s <==> zero != one || forall i :: 0 <= i < |s| ==> s[i]
  {
    var r := Parsed(Printed(s, zero, one), |s|, one);
    forall i | 0 <= i < |s|
      ensures r[i] == (s[i] || zero == one)
    {
      assert Printed(s, zero, one)[|s| - 1 - i] == if s[i] then one else zero;
    }
  }

  lemma PrintedParsed(str: string, zero: char, one: char)
    requires forall i :: 0 <= i < |str| ==> str[i] == zero || str[i] == one
    ensures Printed(Parsed(str, |str|, one), zero, one) == str
  {
    var s := Parsed(str, |str|, one);
    forall i | 0 <= i < |str|
      ensures Printed(s, zero, one)[i] == str[i]
    {
      assert s[|str| - 1 - i] == (str[i] == one);
    }
  }

  // ----- the bitset

  class FixedBitset {
    const bits: nat
    const width: nat
    const words: array<Word>

    ghost predicate Shaped()
      reads this, words
    {
      width == WidthFor(bits) && words.Length == LastWord(bits) + 1 && Shape(words[..], width)
    }

    ghost predicate Valid()
      reads this, words
    {
      Shaped() && Padded(words[..], bits)
    }

    ghost function Contents(): seq<bool>
      requires Valid()
      reads this, words
    {
      Bits(words[..], bits)
    }

    constructor (bits: nat)
      ensures Valid() && this.bits == bits && fresh(words)
      ensures Contents() == Zeros(bits)
    {
      this.bits := bits;
      width := WidthFor(bits);
      words := new Word[LastWord(bits) + 1](_ => Zeros(WidthFor(bits)));
      new;
      Layout(bits);
      ZeroBits(words[..], bits);
    }

    /** Starts with the bits of a 64-bit integer. Between 33 and 63 bits nothing is masked off, so that the
        integer has to fit. */
    constructor FromInteger(bits: nat, value: Word)
      requires |value| == 64
      ensures Shaped() && this.bits == bits && fresh(words)
      ensures Valid() <==> bits <= 32 || 64 <= bits || forall i :: bits <= i < 64 ==> !value[i]
      ensures Valid() ==> Contents() == FirstBits(value, bits)
    {
      hide Times;
      this.bits := bits;
      width := WidthFor(bits);
      words := new Word[LastWord(bits) + 1](_ => Zeros(WidthFor(bits)));
      new;
      words[0] := if bits <= 32 then And(value, LowMask(64, bits))[..32] else value;
      IntegerBits(words[..], bits, value);
    }

    method ShiftUpWords(q: nat)
      requires Shaped()
      modifies words
      ensures Shaped() && words[..] == UpByWords(old(words[..]), width, q)
    {
      hide Zeros;
      ghost var ws := words[..];
      var w := words.Length - 1;
      while 0 <= w
        invariant -1 <= w < words.Length
        invariant forall j :: 0 <= j <= w ==> words[j] == ws[j]
        invariant forall j :: w < j < words.Length ==> words[j] == UpperWord(ws, width, q, j)
      {
        words[w] := if q <= w then words[w - q] else Zeros(width);
        w := w - 1;
      }
    }

    method ShiftUpBits(p: nat)
      requires Shaped() && p <= width
      modifies words
      ensures Shaped() && words[..] == UpByBits(old(words[..]), width, p)
    {
      hide CarryUp, ShiftUp;
      ghost var ws := words[..];
      UpByBitsShape(ws, width, p);
      var w := words.Length - 1;
      while 0 < w
        invariant 0 <= w < words.Length
        invariant forall j :: 0 <= j <= w ==> words[j] == ws[j]
        invariant forall j :: w < j < words.Length ==> words[j] == UpWord(ws, width, p, j)
      {
        words[w] := CarryUp(words[w - 1], words[w], p);
        w := w - 1;
      }
      words[0] := ShiftUp(words[0], p);
    }

    method Trim()
      requires Shaped()
      modifies words
      ensures words[..] == Trimmed(old(words[..]), bits)
    {
      var last := words.Length - 1;
      if bits == 0 || bits % width != 0 {
        words[last] := And(words[last], LowMask(width, bits % width));
      }
    }

    /** Shifts towards higher positions by any amount. */
    method ShiftLeft(n: nat)
      requires Valid()
      modifies words
      ensures Valid() && Contents() == ShiftedUp(old(Contents()), n)
    {
      hide Times, UpByWords, UpByBits, Trimmed, Bits, Padded;
      ghost var ws := words[..];
      UpMeansShiftedUp(ws, bits, n);
      NoShift(ws, width);
      var q := n / width;
      if q != 0 {
        ShiftUpWords(q);
      }
      NoBitShift(words[..], width);
      var p := n % width;
      if p != 0 {
        ShiftUpBits(p);
      }
      Trim();
      PaddedShape(words[..], bits);
    }

    method ShiftDownWords(q: nat)
      requires Shaped()
      modifies words
      ensures Shaped() && words[..] == DownByWords(old(words[..]), width, q)
    {
      ghost var ws := words[..];
      for w := 0 to words.Length
        invariant forall j :: 0 <= j < w ==> words[j] == LowerWord(ws, width, q, j)
        invariant forall j :: w <= j < words.Length ==> words[j] == ws[j]
      {
        words[w] := if q <= words.Length - 1 - w then words[w + q] else Zeros(width);
      }
    }

    method ShiftDownBits(p: nat)
      requires Shaped() && p <= width
      modifies words
      ensures Shaped() && words[..] == DownByBits(old(words[..]), width, p)
    {
      hide CarryDown, ShiftDown;
      ghost var ws := words[..];
      DownByBitsShape(ws, width, p);
      var last := words.Length - 1;
      for w := 0 to last
        invariant forall j :: 0 <= j < w ==> words[j] == DownWord(ws, width, p, j)
        invariant forall j :: w <= j < words.Length ==> words[j] == ws[j]
      {
        words[w] := CarryDown(words[w], words[w + 1], p);
      }
      words[last] := ShiftDown(words[last], p);
    }

    /** Shifts towards lower positions by any amount. */
    method ShiftRight(n: nat)
      requires Valid()
      modifies words
      ensures Valid() && Contents() == ShiftedDown(old(Contents()), n)
    {
      hide Times, DownByWords, DownByBits, Bits, Padded;
      ghost var ws := words[..];
      DownMeansShiftedDown(ws, bits, n);
      NoShift(ws, width);
      var q := n / width;
      if q != 0 {
        ShiftDownWords(q);
      }
      NoBitShift(words[..], width);
      var p := n % width;
      if p != 0 {
        ShiftDownBits(p);
      }
      PaddedShape(words[..], bits);
    }

    method SetAll()
      requires Valid()
      modifies words
      ensures Valid() && Contents() == Ones(bits)
    {
      hide Times;
      for w := 0 to words.Length
        invariant forall j :: 0 <= j < w ==> words[j] == Ones(width)
      {
        words[w] := Ones(width);
      }
      ghost var ws := words[..];
      Trim();
      TrimmedBits(ws, bits);
      assert forall i :: 0 <= i < bits ==> View(ws, width, i);
    }

    method FlipAll()
      requires Valid()
      modifies words
      ensures Valid() && Contents() == Not(old(Contents()))
    {
      hide Times;
      ghost var was := words[..];
      for w := 0 to words.Length
        invariant forall j :: 0 <= j < w ==> words[j] == Not(was[j])
        invariant forall j :: w <= j < words.Length ==> words[j] == was[j]
      {
        words[w] := Not(words[w]);
      }
      ghost var ws := words[..];
      Trim();
      TrimmedBits(ws, bits);
      assert forall i :: 0 <= i < bits ==> View(ws, width, i) == !View(was, width, i);
    }

    method Test(pos: nat) returns (value: bool)
      requires Valid() && pos < bits
      ensures value == Contents()[pos]
    {
      hide Times;
      InWord(words.Length, width, pos);
      value := And(words[pos / width], Bit(width, pos % width)) != Zeros(width);
      assert !Contents()[pos] ==> And(words[pos / width], Bit(width, pos % width)) == Zeros(width);
      assert Contents()[pos] ==> And(words[pos / width], Bit(width, pos % width))[pos % width];
    }

    method Set(pos: nat, value: bool)
      requires Valid() && pos < bits
      modifies words
      ensures Valid() && Contents() == old(Contents())[pos := value]
    {
      hide Times;
      ghost var ws := words[..];
      InWord(words.Length, width, pos);
      var j := pos / width;
      var bit := Bit(width, pos % width);
      words[j] := if value then Or(words[j], bit) else And(words[j], Not(bit));
      BitUpdate(ws, bits, pos, words[j], value);
    }

    method Flip(pos: nat)
      requires Valid() && pos < bits
      modifies words
      ensures Valid() && Contents() == old(Contents())[pos := !old(Contents())[pos]]
    {
      hide Times;
      ghost var ws := words[..];
      InWord(words.Length, width, pos);
      var j := pos / width;
      words[j] := Xor(words[j], Bit(width, pos % width));
      BitUpdate(ws, bits, pos, words[j], !View(ws, width, pos));
    }

    /** Whether all bits are set, by comparing whole words. */
    method All() returns (all: bool)
      requires Valid()
      ensures all <==> Contents() == Ones(bits)
    {
      hide Times, View, Bits, Padded, FullWords, FullWord, Ones, LowMask, LastWord;
      if bits == 0 {
        EmptyBits(words[..]);
        return true;
      }
      AllByWords(words[..], bits);
      var noPadding := bits % width == 0;
      var full := if noPadding then words.Length else words.Length - 1;
      for w := 0 to full
        invariant forall j :: 0 <= j < w ==> words[j] == Ones(width)
      {
        if words[w] != Ones(width) {
          SomeWordNotFull(words[..], bits, w);
          return false;
        }
      }
      LastWordDecides(words[..], bits);
      all := noPadding || words[words.Length - 1] == LowMask(width, bits % width);
    }

    method Count() returns (count: nat)
      requires Valid()
      ensures count == |set i: nat | i < |Contents()| && Contents()[i]|
    {
      hide Times, View;
      count := 0;
      for w := 0 to words.Length
        invariant count == PopSum(words[..w])
      {
        assert words[..w + 1][..w] == words[..w];
        count := count + PopCount(words[w]);
      }
      assert words[..words.Length] == words[..];
      CountExact(words[..], bits);
      PopCountIsCardinality(Contents());
    }

    /** Word by word comparison is comparison of the bits. */
    method Equal(other: FixedBitset) returns (same: bool)
      requires Valid() && other.Valid() && bits == other.bits
      ensures same <==> Contents() == other.Contents()
    {
      hide Times, View, Padded, Bits;
      SameWords(words[..], other.words[..], bits);
      for w := 0 to words.Length
        invariant forall j :: 0 <= j < w ==> words[j] == other.words[j]
      {
        if words[w] != other.words[w] {
          assert words[..][w] != other.words[..][w];
          return false;
        }
      }
      same := true;
      assert words[..] == other.words[..];
    }

    method ToString(zero: char, one: char) returns (str: string)
      requires Valid()
      ensures str == Printed(Contents(), zero, one)
    {
      hide Times, View, Bits, Padded;
      str := "";
      var pos := bits;
      SizeOfContents();
      while 0 < pos
        invariant 0 <= pos <= bits && |str| == bits - pos
        invariant forall i :: 0 <= i < |str| ==> str[i] == if Contents()[bits - 1 - i] then one else zero
      {
        pos := pos - 1;
        var isSet := Test(pos);
        str := str + [if isSet then one else zero];
      }
    }

    lemma SizeOfContents()
      requires Valid()
      ensures |Contents()| == bits
    {
    }

    /** Sets the words that hold the first `count` bits, and says how many there are. */
    method FillWords(str: string, count: nat, one: char, ghost s: seq<bool>) returns (w: nat)
      requires Shaped() && count <= |str| && count <= bits && Spelled(s, str, count, bits, one)
      modifies words
      ensures w <= words.Length && count <= Base(w, width)
      ensures forall j :: 0 <= j < w ==> words[j] == WordOf(s, width, j)
    {
      hide Times, View, Bits, Padded, LastWord, WordOf, Partial, Base, Or, Zeros, Bit, Spelled;
      w := 0;
      var used, word, last := 0, Zeros(width), count;
      BaseIs(0, width);
      NonNegative(0, width);
      PartialStart(s, width, 0);
      while last != 0
        invariant 0 <= last <= count && 0 <= used < width && 0 <= w <= words.Length
        invariant count - last == Base(w, width) + used
        invariant forall j :: 0 <= j < w ==> words[j] == WordOf(s, width, j)
        invariant |word| == width && Partial(word, s, width, w, used)
        decreases last
      {
        last := last - 1;
        BaseIs(w, width);
        WordBound(bits, width, w, count - last - 1);
        SpelledAt(s, str, count, bits, one, last);
        PartialStep(word, s, width, w, used, str[last] == one);
        word := Or(word, if str[last] == one then Bit(width, used) else Zeros(width));
        used := used + 1;
        if used == width {
          PartialEnd(word, s, width, w, used);
          words[w] := word;
          w, word, used := w + 1, Zeros(width), 0;
          PartialStart(s, width, w);
        }
      }
      BaseIs(w, width);
      if used != 0 {
        WordBound(bits, width, w, count - 1);
        SpelledRest(s, str, count, bits, one);
        PartialEnd(word, s, width, w, used);
        words[w] := word;
        w := w + 1;
      }
    }

    /** Sets all words from a string, whatever was in them before. */
    method Construct(str: string, zero: char, one: char)
      requires Shaped() && forall i :: 0 <= i < |str| ==> str[i] == zero || str[i] == one
      modifies words
      ensures Valid() && Contents() == Parsed(str, bits, one)
    {
      hide Times, View, Bits, Padded, LastWord, WordOf, Base, Zeros;
      var count := if |str| > bits then bits else |str|;
      ghost var s := Parsed(str, bits, one);
      var w := FillWords(str, count, one, s);
      SpelledRest(s, str, count, bits, one);
      ghost var filled := w;
      while w < words.Length
        invariant filled <= w <= words.Length
        invariant forall j :: 0 <= j < w ==> words[j] == WordOf(s, width, j)
      {
        LaterWordZero(s, width, w, count, filled);
        words[w] := Zeros(width);
        w := w + 1;
      }
      FromWords(words[..], s, bits);
      PaddedShape(words[..], bits);
    }
  }

  /** Bit `i` of `s` stands for character `count - 1 - i`, and there are no other set bits. */
  ghost predicate Spelled(s: seq<bool>, str: string, count: nat, bits: nat, one: char) {
    && count <= |str| && count <= bits == |s|
    && forall i :: 0 <= i < bits ==> s[i] == (i < count && str[count - 1 - i] == one)
  }

  lemma SpelledAt(s: seq<bool>, str: string, count: nat, bits: nat, one: char, last: nat)
    requires Spelled(s, str, count, bits, one) && last < count
    ensures count - 1 - last < |s| && s[count - 1 - last] == (str[last] == one)
  {
    assert s[count - 1 - last] == (str[count - 1 - (count - 1 - last)] == one);
  }

  lemma SpelledRest(s: seq<bool>, str: string, count: nat, bits: nat, one: char)
    requires Spelled(s, str, count, bits, one)
    ensures |s| == bits && forall i :: count <= i < |s| ==> !s[i]
  {
  }

  lemma BaseIs(j: nat, width: nat)
    ensures Base(j, width) == Times(j, width) && Base(j + 1, width) == Base(j, width) + width
  {
    hide Times;
    TimesLinear(j, 1, width);
    NonNegative(1, width);
  }

  /** Word `j` of a bit sequence. */
  ghost function WordOf(s: seq<bool>, width: nat, j: nat): (r: Word)
    ensures |r| == width && forall k :: 0 <= k < width ==> r[k] == (Base(j, width) + k < |s| && s[Base(j, width) + k])
  {
    seq(width, k requires 0 <= k < width => Base(j, width) + k < |s| && s[Base(j, width) + k])
  }

  /** The position of the first bit of word `j`. */
  ghost function Base(j: nat, width: nat): (i: nat)
    ensures i == Times(j, width)
  {
    NonNegative(j, width);
    Times(j, width)
  }

  /** What the first `used` bits of word `j` make of a word that was zero. */
  ghost predicate Partial(word: Word, s: seq<bool>, width: nat, j: nat, used: nat) {
    |word| == width && used <= width && forall k :: 0 <= k < width ==> word[k] == (k < used && WordOf(s, width, j)[k])
  }

  lemma PartialStep(word: Word, s: seq<bool>, width: nat, j: nat, used: nat, bit: bool)
    requires Partial(word, s, width, j, used) && used < width
    requires bit == (Base(j, width) + used < |s| && s[Base(j, width) + used])
    ensures Partial(Or(word, if bit then Bit(width, used) else Zeros(width)), s, width, j, used + 1)
  {
  }

  /** A word is complete when its bits are used up or the rest of the sequence is zero. */
  lemma PartialEnd(word: Word, s: seq<bool>, width: nat, j: nat, used: nat)
    requires Partial(word, s, width, j, used)
    requires used == width || forall i :: Base(j, width) + used <= i < |s| ==> !s[i]
    ensures word == WordOf(s, width, j)
  {
  }

  lemma PartialStart(s: seq<bool>, width: nat, j: nat)
    ensures Partial(Zeros(width), s, width, j, 0)
  {
  }

  /** An integer that does not fit leaves set bits in the padding. */
  method UnmaskedExample() returns (bitset: FixedBitset)
    ensures bitset.bits == 33 && !bitset.Valid()
  {
    var value := Ones(64);
    assert value[33];
    bitset := new FixedBitset.FromInteger(33, value);
  }

  lemma PaddedShape(ws: seq<Word>, bits: nat)
    requires Padded(ws, bits)
    ensures Shape(ws, WidthFor(bits)) && |ws| == LastWord(bits) + 1
  {
    hide Times;
  }

  lemma ZeroBits(ws: seq<Word>, bits: nat)
    requires |ws| == LastWord(bits) + 1 && forall j :: 0 <= j < |ws| ==> ws[j] == Zeros(WidthFor(bits))
    ensures Padded(ws, bits) && Bits(ws, bits) == Zeros(bits)
  {
    hide Times;
    Layout(bits);
    forall i | 0 <= i < Times(|ws|, WidthFor(bits))
      ensures !View(ws, WidthFor(bits), i)
    {
      InWord(|ws|, WidthFor(bits), i);
    }
  }

  function FirstBits(value: Word, bits: nat): (r: seq<bool>)
    ensures |r| == bits && forall i :: 0 <= i < bits ==> r[i] == (i < |value| && value[i])
  {
    seq(bits, i requires 0 <= i < bits => i < |value| && value[i])
  }

  lemma IntegerBits(ws: seq<Word>, bits: nat, value: Word)
    requires |value| == 64 && |ws| == LastWord(bits) + 1
    requires ws[0] == if bits <= 32 then And(value, LowMask(64, bits))[..32] else value
    requires forall j :: 0 < j < |ws| ==> ws[j] == Zeros(WidthFor(bits))
    ensures Padded(ws, bits) <==> bits <= 32 || 64 <= bits || forall i :: bits <= i < 64 ==> !value[i]
    ensures Padded(ws, bits) ==> Bits(ws, bits) == FirstBits(value, bits)
  {
    hide Times;
    var width := WidthFor(bits);
    Layout(bits);
    NonNegative(1, width);
    TimesMonotone(1, |ws|, width);
    forall i | 0 <= i < Times(|ws|, width)
      ensures Shape(ws, width) && View(ws, width, i) == (i < width && ws[0][i])
    {
      InWord(|ws|, width, i);
      if i < width {
        ViewAt(ws, width, i, 0, i);
      } else if i / width == 0 {
        assert false;
      }
    }
    if 32 < bits < 64 && !forall i :: bits <= i < 64 ==> !value[i] {
      var i :| bits <= i < 64 && value[i];
      assert View(ws, width, i);
    }
  }

  lemma EmptyBits(ws: seq<Word>)
    requires Padded(ws, 0)
    ensures Bits(ws, 0) == Ones(0)
  {
  }

  /** Clearing the padding keeps the bits. */
  lemma TrimmedBits(ws: seq<Word>, bits: nat)
    requires Shape(ws, WidthFor(bits)) && |ws| == LastWord(bits) + 1
    ensures bits <= Times(|ws|, WidthFor(bits)) && Padded(Trimmed(ws, bits), bits)
    ensures Bits(Trimmed(ws, bits), bits) == Bits(ws, bits)
  {
    hide Times, View;
    Layout(bits);
    ViewTrimmed(ws, bits, 0);
    forall i | 0 <= i < Times(|ws|, WidthFor(bits))
      ensures View(Trimmed(ws, bits), WidthFor(bits), i) == (i < bits && View(ws, WidthFor(bits), i))
    {
      ViewTrimmed(ws, bits, i);
    }
  }

  /** Replacing a word by one that differs in one bit. */
  lemma BitUpdate(ws: seq<Word>, bits: nat, pos: nat, word: Word, value: bool)
    requires Padded(ws, bits) && pos < bits
    requires 0 <= pos / WidthFor(bits) < |ws| && |word| == WidthFor(bits)
    requires forall k :: 0 <= k < WidthFor(bits) ==>
      word[k] == if k == pos % WidthFor(bits) then value else ws[pos / WidthFor(bits)][k]
    ensures var r := ws[pos / WidthFor(bits) := word];
            Padded(r, bits) && Bits(r, bits) == Bits(ws, bits)[pos := value]
  {
    hide Times;
    var width, r := WidthFor(bits), ws[pos / WidthFor(bits) := word];
    forall i | 0 <= i < Times(|ws|, width)
      ensures View(r, width, i) == if i == pos then value else View(ws, width, i)
    {
      InWord(|ws|, width, i);
      InWord(|ws|, width, pos);
    }
  }

  /** Word `j` of a bitset with all bits set. */
  function FullWord(bits: nat, j: nat): (r: Word)
    ensures |r| == WidthFor(bits)
  {
    if j < LastWord(bits) || bits % WidthFor(bits) == 0 then Ones(WidthFor(bits))
    else LowMask(WidthFor(bits), bits % WidthFor(bits))
  }

  function FullWords(bits: nat): (r: seq<Word>)
    ensures |r| == LastWord(bits) + 1 && forall j :: 0 <= j < |r| ==> r[j] == FullWord(bits, j)
  {
    seq(LastWord(bits) + 1, j requires 0 <= j => FullWord(bits, j))
  }

  lemma FullView(bits: nat, i: nat)
    requires bits > 0 && i < Times(LastWord(bits) + 1, WidthFor(bits))
    ensures Shape(FullWords(bits), WidthFor(bits)) && View(FullWords(bits), WidthFor(bits), i) == (i < bits)
  {
    hide Times;
    var width, last := WidthFor(bits), LastWord(bits);
    Layout(bits);
    InWord(last + 1, width, i);
    if i / width < last {
      TimesMonotone(i / width + 1, last, width);
      TimesLinear(i / width, 1, width);
      NonNegative(1, width);
    }
  }

  lemma AllByWords(ws: seq<Word>, bits: nat)
    requires Padded(ws, bits) && bits > 0
    ensures Bits(ws, bits) == Ones(bits) <==> ws == FullWords(bits)
  {
    hide Times, View, FullWords;
    Layout(bits);
    FullView(bits, 0);
    forall i | 0 <= i < Times(|ws|, WidthFor(bits))
      ensures View(FullWords(bits), WidthFor(bits), i) == (i < bits)
    {
      FullView(bits, i);
    }
    FullSize(bits);
    assert Bits(FullWords(bits), bits) == Ones(bits);
    SameWords(ws, FullWords(bits), bits);
  }

  lemma SomeWordNotFull(ws: seq<Word>, bits: nat, w: nat)
    requires |ws| == LastWord(bits) + 1 && w < |ws| && ws[w] != Ones(WidthFor(bits))
    requires w < LastWord(bits) || bits % WidthFor(bits) == 0
    ensures ws != FullWords(bits)
  {
    hide Ones;
    assert FullWord(bits, w) == Ones(WidthFor(bits));
  }

  lemma LastWordDecides(ws: seq<Word>, bits: nat)
    requires |ws| == LastWord(bits) + 1 && forall j :: 0 <= j < LastWord(bits) ==> ws[j] == Ones(WidthFor(bits))
    requires bits % WidthFor(bits) == 0 ==> ws[LastWord(bits)] == Ones(WidthFor(bits))
    ensures ws == FullWords(bits) <==>
      bits % WidthFor(bits) == 0 || ws[LastWord(bits)] == LowMask(WidthFor(bits), bits % WidthFor(bits))
  {
    hide Ones, LowMask;
    var full := FullWords(bits);
    assert full[LastWord(bits)] == FullWord(bits, LastWord(bits));
    assert ws == full <==> ws[LastWord(bits)] == full[LastWord(bits)];
  }

  lemma FullSize(bits: nat)
    ensures |FullWords(bits)| == LastWord(bits) + 1
  {
  }

  /** A position inside the length lies in one of the words. */
  lemma WordBound(bits: nat, width: nat, w: nat, i: nat)
    requires width == WidthFor(bits) && i < bits && Times(w, width) <= i
    ensures w <= LastWord(bits)
  {
    hide Times;
    Layout(bits);
    if w > LastWord(bits) {
      TimesMonotone(LastWord(bits) + 1, w, width);
    }
  }

  lemma LaterWordZero(s: seq<bool>, width: nat, w: nat, count: nat, filled: nat)
    requires 0 <= count <= Base(filled, width) && filled <= w && forall i :: count <= i < |s| ==> !s[i]
    ensures WordOf(s, width, w) == Zeros(width)
  {
    hide Times;
    TimesMonotone(filled, w, width);
  }

  lemma FromWords(ws: seq<Word>, s: seq<bool>, bits: nat)
    requires |ws| == LastWord(bits) + 1 && |s| == bits
    requires forall j :: 0 <= j < |ws| ==> ws[j] == WordOf(s, WidthFor(bits), j)
    ensures Padded(ws, bits) && Bits(ws, bits) == s
  {
    hide Times;
    var width := WidthFor(bits);
    Layout(bits);
    forall i | 0 <= i < Times(|ws|, width)
      ensures View(ws, width, i) == (i < bits && s[i])
    {
      InWord(|ws|, width, i);
    }
  }
}
