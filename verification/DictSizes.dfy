// The unsigned 32-bit arithmetic of lsd/dict.c: counters, load test and doubling.
module DictSizes {
  import opened Base
  import opened ProbeSeq

  const MIN_BITS: nat := 3           // DICT_MIN_SZ == 8
  const MAX_BITS: nat := 31          // the largest power of two in 32 bits
  const BIG_SIZE: nat := 64000       // DICT_BIGSZ
  const HALF: nat := 0x8000_0000     // 2^31
  const QUARTER: nat := 0x4000_0000  // 2^30

  function Inc(x: Word): Word {
    (x + 1) % WORD
  }

  function Dec(x: Word): Word {
    if x == 0 then WORD - 1 else x - 1
  }

  // The load test of dict_add_p
  predicate Loaded(fill: Word, size: nat) {
    (3 * fill) % WORD >= (size * 2) % WORD
  }

  function Factor(size: nat): nat {
    if size > BIG_SIZE then 2 else 4
  }

  // What dict_resize compares its new size with
  function Target(size: nat, used: Word): Word {
    (Factor(size) * used) % WORD
  }

  // newsize after n turns of the doubling loop
  function Doubled(size: Word, n: nat): Word {
    if n == 0 then size else (2 * Doubled(size, n - 1)) % WORD
  }

  // The first power of two from 2^bits on that exceeds the target.
  function Grow(bits: nat, target: nat): (b: nat)
    ensures bits <= b && Pow2(b) > target
    ensures b > bits ==> Pow2(b - 1) <= target
    decreases if Pow2(bits) > target then 0 else target - Pow2(bits) + 1
  {
    if Pow2(bits) > target then bits else Grow(bits + 1, target)
  }

  lemma PowerValues()
    ensures Pow2(16) == 0x1_0000 && Pow2(30) == QUARTER && Pow2(31) == HALF
  {
    assert Pow2(10) == 0x400;
    Pow2Add(10, 6);
    Pow2Add(10, 10);
    Pow2Add(20, 10);
  }

  lemma GrowBounded(bits: nat, target: nat)
    requires bits <= MAX_BITS && target < HALF
    ensures Grow(bits, target) <= MAX_BITS
  {
    hide Pow2;
    PowerValues();
    var b := Grow(bits, target);
    if b > MAX_BITS {
      Pow2Monotone(MAX_BITS, b - 1);
    }
  }

  lemma SizeFits(bits: nat)
    requires bits <= MAX_BITS
    ensures Pow2(bits) <= HALF
  {
    hide Pow2;
    PowerValues();
    Pow2Monotone(bits, MAX_BITS);
  }

  // Up to 2^31 the doubling is exact; after that the size is 0 for good.
  lemma {:induction false} DoubledIs(bits: nat, n: nat)
    requires bits <= MAX_BITS
    ensures Pow2(bits) < WORD
    ensures Doubled(Pow2(bits), n) == if bits + n <= MAX_BITS then Pow2(bits + n) else 0
  {
    SizeFits(bits);
    if n > 0 {
      DoubledIs(bits, n - 1);
      PowerValues();
      if bits + n <= MAX_BITS {
        SizeFits(bits + n);
      }
    }
  }

  // The doubling loop ends if and only if the target is below 2^31; otherwise the
  // size wraps to 0 without ever having exceeded it.
  lemma DoublingEndsIff(bits: nat, target: Word)
    requires bits <= MAX_BITS
    ensures Pow2(bits) < WORD
    ensures (exists n: nat :: Doubled(Pow2(bits), n) > target) <==> target < HALF
  {
    hide Pow2, Doubled;
    SizeFits(bits);
    PowerValues();
    if target < HALF {
      DoubledIs(bits, MAX_BITS - bits);
    }
    forall n: nat | Doubled(Pow2(bits), n) > target
      ensures target < HALF
    {
      DoubledIs(bits, n);
      if bits + n <= MAX_BITS {
        SizeFits(bits + n);
      }
    }
  }

  // Where it ends it has found the size Grow names, and not before.
  lemma DoublingFinds(bits: nat, target: Word, n: nat)
    requires bits <= MAX_BITS && target < HALF && n == Grow(bits, target) - bits
    ensures Pow2(bits) < WORD && Doubled(Pow2(bits), n) == Pow2(Grow(bits, target))
    ensures forall m: nat :: m < n ==> Doubled(Pow2(bits), m) <= target
  {
    hide Pow2, Doubled;
    GrowBounded(bits, target);
    DoubledIs(bits, n);
    forall m: nat | m < n
      ensures Doubled(Pow2(bits), m) <= target
    {
      DoubledIs(bits, m);
      Pow2Monotone(bits + m, Grow(bits, target) - 1);
    }
  }

  // Without wrap-around the load test and the target are what they look like.
  lemma NoWrap(fill: Word, used: Word, size: nat)
    requires fill < QUARTER && used < QUARTER
    ensures 3 * fill < WORD && Target(size, used) == Factor(size) * used
    ensures size <= QUARTER ==> (Loaded(fill, size) <==> 3 * fill >= 2 * size)
    ensures size == HALF ==> Loaded(fill, size)
  {
  }
}
