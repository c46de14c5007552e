/**
  The compact tree node: the colour is kept in the most significant bit of the word that holds the
  parent index.
 */
module PackedNode {
  import opened Products
  import opened Words
  import opened IndexStorage

  const WORD_BITS: nat := 64

  type PackedWord = w: Word | |w| == WORD_BITS witness Zeros(WORD_BITS)

  const MASK: PackedWord := Bit(WORD_BITS, WORD_BITS - 1)
  const LOCAL_NULL: PackedWord := ShiftDown(Ones(WORD_BITS), 1)

  function GetIndex(word: PackedWord): nat {
    var index := And(word, Not(MASK));
    if index == LOCAL_NULL then NULL_INDEX else Words.Value(index)
  }

  function GetColor(word: PackedWord): bool { And(word, MASK) == MASK }

  function SetIndex(word: PackedWord, index: nat): PackedWord {
    Or(And(word, MASK), Digits(if index == NULL_INDEX then LOCAL_NULL_INDEX else index, WORD_BITS))
  }

  function SetColor(word: PackedWord, red: bool): PackedWord {
    Or(And(Not(MASK), word), if red then MASK else Zeros(WORD_BITS))
  }

  /** The indices that setting accepts. */
  predicate Accepted(index: nat) { index == NULL_INDEX || index <= LOCAL_NULL_INDEX }

  /** What an index reads back as. */
  function Normal(index: nat): nat { if index == LOCAL_NULL_INDEX then NULL_INDEX else index }

  lemma HighPower()
    ensures Pow2(63) == 0x8000_0000_0000_0000
  {
    hide Pow2;
    assert Pow2(7) == 0x80 by { SmallPower(); }
    Pow2Sum(7, 7);
    Pow2Sum(14, 7);
    Pow2Sum(21, 21);
    Pow2Sum(42, 21);
  }

  lemma SmallPower()
    ensures Pow2(7) == 0x80
  {
    assert Pow2(6) == 0x40;
  }

  lemma LocalNullValue()
    ensures Pow2(WORD_BITS - 1) == LOCAL_NULL_INDEX + 1
    ensures Words.Value(LOCAL_NULL) == LOCAL_NULL_INDEX
  {
    HighPower();
    assert LOCAL_NULL == LowMask(WORD_BITS, WORD_BITS - 1);
    MaskValue(WORD_BITS, WORD_BITS - 1);
  }

  lemma LocalNullBits(word: PackedWord)
    ensures word == LOCAL_NULL <==> Words.Value(word) == LOCAL_NULL_INDEX
  {
    LocalNullValue();
    ValueInjective(word, LOCAL_NULL);
  }

  /** The digits of an index leave the top bit clear. */
  lemma IndexDigits(index: nat)
    requires index <= LOCAL_NULL_INDEX
    ensures Words.Value(Digits(index, WORD_BITS)) == index && !Digits(index, WORD_BITS)[WORD_BITS - 1]
  {
    LocalNullValue();
    Pow2Sum(WORD_BITS - 1, 1);
    DigitsValue(index, WORD_BITS);
    TopBit(Digits(index, WORD_BITS));
  }

  /** The two parts of a word do not disturb each other. */
  lemma Combined(word: PackedWord, low: PackedWord)
    requires !low[WORD_BITS - 1]
    ensures And(Or(And(word, MASK), low), Not(MASK)) == low
    ensures And(Or(And(word, MASK), low), MASK) == And(word, MASK)
  {
  }

  /** An accepted index reads back unless it is the local null itself, which reads back as null. */
  lemma IndexReadsBack(word: PackedWord, index: nat)
    requires Accepted(index)
    ensures GetIndex(SetIndex(word, index)) == index <==> index != LOCAL_NULL_INDEX
    ensures GetIndex(SetIndex(word, index)) == Normal(index)
    ensures GetColor(SetIndex(word, index)) == GetColor(word)
  {
    var actual := if index == NULL_INDEX then LOCAL_NULL_INDEX else index;
    IndexDigits(actual);
    Combined(word, Digits(actual, WORD_BITS));
    LocalNullBits(Digits(actual, WORD_BITS));
  }

  lemma ColorReadsBack(word: PackedWord, red: bool)
    ensures GetColor(SetColor(word, red)) == red && GetIndex(SetColor(word, red)) == GetIndex(word)
  {
    var word' := SetColor(word, red);
    assert And(word', Not(MASK)) == And(word, Not(MASK));
    assert And(word', MASK)[WORD_BITS - 1] == red;
    assert red ==> And(word', MASK) == MASK;
  }

  /** Nothing else is stored: index and colour determine the word. */
  lemma WordIsIndexAndColor(a: PackedWord, b: PackedWord)
    ensures GetIndex(a) == GetIndex(b) && GetColor(a) == GetColor(b) <==> a == b
  {
    var la, lb := And(a, Not(MASK)), And(b, Not(MASK));
    LocalNullValue();
    LocalNullBits(la);
    LocalNullBits(lb);
    TopBit(la);
    TopBit(lb);
    ValueInjective(la, lb);
    TopByColor(a);
    TopByColor(b);
    if GetIndex(a) == GetIndex(b) && GetColor(a) == GetColor(b) {
      assert la == lb;
      forall k | 0 <= k < WORD_BITS
        ensures a[k] == b[k]
      {
        assert k < WORD_BITS - 1 ==> la[k] == a[k] && lb[k] == b[k];
      }
    }
  }

  lemma TopByColor(word: PackedWord)
    ensures GetColor(word) == word[WORD_BITS - 1]
  {
    assert And(word, MASK)[WORD_BITS - 1] == word[WORD_BITS - 1];
    assert word[WORD_BITS - 1] ==> And(word, MASK) == MASK;
  }

  class IndexWithColor {
    var word: PackedWord

    constructor (index: nat, red: bool)
      requires Accepted(index)
      ensures GetIndex(word) == Normal(index) && GetColor(word) == red
    {
      hide GetIndex, GetColor, SetIndex, SetColor;
      IndexReadsBack(Zeros(WORD_BITS), index);
      ColorReadsBack(SetIndex(Zeros(WORD_BITS), index), red);
      word := SetColor(SetIndex(Zeros(WORD_BITS), index), red);
    }

    method StoreIndex(index: nat)
      requires Accepted(index)
      modifies this
      ensures GetIndex(word) == Normal(index) && GetColor(word) == old(GetColor(word))
    {
      hide GetIndex, GetColor, SetIndex;
      IndexReadsBack(word, index);
      word := SetIndex(word, index);
    }

    method StoreColor(red: bool)
      modifies this
      ensures GetColor(word) == red && GetIndex(word) == old(GetIndex(word))
    {
      hide GetIndex, GetColor, SetColor;
      ColorReadsBack(word, red);
      word := SetColor(word, red);
    }
  }
}
