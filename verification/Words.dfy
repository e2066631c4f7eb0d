// 64-bit words as lsd/balloc.c computes with them, and the numbers they stand for.
module Words {

  const LAST: bv64 := 0xFFFF_FFFF_FFFF_FFFF
  const LAST_ALIGNED: bv64 := 0xFFFF_FFFF_FFFF_FFF8

  function Bit(x: bv64): nat {
    if x & 1 == 1 then 1 else 0
  }

  function Half(x: bv64): bv64 {
    x >> 1
  }

  function Eighth(x: bv64): bv64 {
    x >> 3
  }

  function Next(x: bv64): bv64 {
    x + 1
  }

  // The number a word stands for.
  function Value(x: bv64): nat
    decreases x
  {
    if x == 0 then 0 else 2 * Value(Half(x)) + Bit(x)
  }

  lemma Halves(x: bv64)
    ensures Value(x) == 2 * Value(Half(x)) + Bit(x)
  {
  }

  lemma EvenNext(x: bv64)
    requires Bit(x) == 0
    ensures Half(Next(x)) == Half(x)
  {
    assert x + 1 == x | 1;
  }

  lemma EvenNextBit(x: bv64)
    requires Bit(x) == 0
    ensures Bit(Next(x)) == 1
  {
  }

  lemma OddNext(x: bv64)
    requires Bit(x) == 1 && x != LAST
    ensures Half(Next(x)) == Next(Half(x))
  {
  }

  lemma OddNextBit(x: bv64)
    requires Bit(x) == 1
    ensures Bit(Next(x)) == 0
  {
  }

  lemma HalfNotLast(x: bv64)
    ensures Half(x) != LAST
  {
  }

  lemma NextStep(x: bv64)
    requires x != LAST && (Bit(x) == 1 ==> Value(Next(Half(x))) == Value(Half(x)) + 1)
    ensures Value(Next(x)) == Value(x) + 1
  {
    hide Value, Bit, Half, Next;
    Bits(x);
    Halves(x);
    Halves(Next(x));
    if Bit(x) == 0 {
      EvenNext(x);
      EvenNextBit(x);
    } else {
      OddNext(x);
      OddNextBit(x);
    }
  }

  lemma {:induction false} ValueNext(x: bv64)
    requires x != LAST
    ensures Value(Next(x)) == Value(x) + 1
    decreases Value(x)
  {
    hide Value, Bit, Half, Next;
    Halves(x);
    if Bit(x) == 1 {
      HalfNotLast(x);
      ValueNext(Half(x));
    }
    NextStep(x);
  }

  lemma Bits(x: bv64)
    ensures Bit(x) == 0 || Bit(x) == 1
  {
  }

  lemma ThreeHalves(x: bv64)
    ensures Half(Half(Half(x))) == Eighth(x)
  {
  }

  predicate Aligned(x: bv64) {
    x % 8 == 0
  }

  lemma AlignedBits(x: bv64)
    ensures Aligned(x) <==> Bit(x) == 0 && Bit(Half(x)) == 0 && Bit(Half(Half(x))) == 0
  {
  }

  lemma ValueEighth(x: bv64)
    ensures Value(x) / 8 == Value(Eighth(x)) && (Value(x) % 8 == 0 <==> Aligned(x))
  {
    hide Value, Bit, Half, Eighth, Aligned;
    Halves(x);
    Halves(Half(x));
    Halves(Half(Half(x)));
    ThreeHalves(x);
    AlignedBits(x);
    Bits(x);
    Bits(Half(x));
    Bits(Half(Half(x)));
  }

  // elemsize += sizeof(void *) and elemsize &= ~(sizeof(void *) - 1)
  function Up(x: bv64): bv64 {
    (x + 8) & !7
  }

  lemma UpEighth(x: bv64)
    requires x < LAST_ALIGNED
    ensures Eighth(Up(x)) == Next(Eighth(x))
  {
  }

  lemma UpAligned(x: bv64)
    ensures Aligned(Up(x))
  {
  }

  lemma UpWraps(x: bv64)
    requires x >= LAST_ALIGNED
    ensures Up(x) == 0
  {
  }

  lemma EighthNotLast(x: bv64)
    ensures Eighth(x) != LAST
  {
  }

  lemma AlignedBound(x: bv64)
    requires Aligned(x)
    ensures x <= LAST_ALIGNED
  {
  }

  lemma ValueZero()
    ensures Value(0) == 0
  {
  }

  lemma ValueUp(x: bv64)
    requires x < LAST_ALIGNED
    ensures Value(Up(x)) == 8 * (Value(x) / 8 + 1)
  {
    hide Value, Eighth, Next, Up, Aligned;
    UpEighth(x);
    UpAligned(x);
    EighthNotLast(x);
    ValueNext(Eighth(x));
    ValueEighth(x);
    ValueEighth(Up(x));
  }
}
