// The address arithmetic of lsd/balloc.c: where the cells of a block lie.
module Layout {
  import opened Words

  const POINTER_SIZE: nat := 8
  const MEMBLOCK_SIZE: nat := 4 * POINTER_SIZE  // a dlink_node and the block pointer

  // The element size blockheap_create settles on.
  function Padded(size: nat): nat {
    if size % POINTER_SIZE != 0
    then (size + POINTER_SIZE) - (size + POINTER_SIZE) % POINTER_SIZE
    else size
  }

  lemma PaddedLeast(size: nat)
    ensures Padded(size) % POINTER_SIZE == 0 && size <= Padded(size) < size + POINTER_SIZE
    ensures forall m: nat :: m % POINTER_SIZE == 0 && size <= m ==> Padded(size) <= m
  {
    var q := size / POINTER_SIZE;
    assert size == POINTER_SIZE * q + size % POINTER_SIZE;
    assert (size + POINTER_SIZE) % POINTER_SIZE == size % POINTER_SIZE;
    forall m: nat | m % POINTER_SIZE == 0 && size <= m
      ensures Padded(size) <= m
    {
      assert m == POINTER_SIZE * (m / POINTER_SIZE);
    }
  }

  // elemsize &= ~(sizeof(void *) - 1) clears the remainder.
  lemma MaskClears(x: bv64)
    ensures x & !7 == x - x % 8
  {
  }

  // The padding as it is computed on 64-bit words
  function PaddedWord(size: bv64): bv64 {
    if size % 8 != 0 then Up(size) else size
  }

  // ... is the padding on numbers if and only if adding the pointer size does not wrap.
  lemma PaddedWordIff(x: bv64)
    ensures Value(PaddedWord(x)) == Padded(Value(x)) <==> x <= LAST_ALIGNED
  {
    PaddedWordIs(x);
    hide Value, Up, Aligned, PaddedWord;
    ValueEighth(x);
    PaddedOf(Value(x));
    if Aligned(x) {
      AlignedBound(x);
    } else if x < LAST_ALIGNED {
      ValueUp(x);
    } else {
      UpWraps(x);
      ValueZero();
      BeyondLastAligned(x);
    }
  }

  lemma BeyondLastAligned(x: bv64)
    requires x >= LAST_ALIGNED && !Aligned(x)
    ensures x > LAST_ALIGNED
  {
  }

  lemma PaddedWordIs(x: bv64)
    ensures PaddedWord(x) == if Aligned(x) then x else Up(x)
  {
  }

  lemma PaddedOf(v: nat)
    ensures Padded(v) == if v % 8 == 0 then v else 8 * (v / 8 + 1)
  {
  }

  function Stride(elemSize: nat): nat {
    elemSize + MEMBLOCK_SIZE
  }

  function CellAt(elemSize: nat, i: nat): nat {
    i * Stride(elemSize)
  }

  // The pointer given to the client, relative to b->elems.
  function PayloadAt(elemSize: nat, i: nat): nat {
    CellAt(elemSize, i) + MEMBLOCK_SIZE
  }

  function AllocSize(elemSize: nat, elemsPerBlock: nat): nat {
    (elemsPerBlock + 1) * Stride(elemSize)
  }

  lemma StrideSteps(elemSize: nat, i: nat, j: nat)
    requires i < j
    ensures CellAt(elemSize, i) + Stride(elemSize) <= CellAt(elemSize, j)
  {
    var s := Stride(elemSize);
    assert j * s == i * s + (j - i) * s;
    assert (j - i) * s == s + (j - i - 1) * s;
    assert (j - i - 1) * s >= 0;
  }

  // Cells are pointer-aligned, inside the mapping and pairwise disjoint; from the
  // client's pointer, subtracting the header leads back to the one cell.
  lemma CellsLaidOut(size: nat, elemsPerBlock: nat, i: nat, j: nat)
    requires i < elemsPerBlock && j < elemsPerBlock
    ensures var e := Padded(size);
      && CellAt(e, i) % POINTER_SIZE == 0 && PayloadAt(e, i) % POINTER_SIZE == 0
      && PayloadAt(e, i) + size <= PayloadAt(e, i) + e <= AllocSize(e, elemsPerBlock)
      && (i != j ==> PayloadAt(e, i) + e <= CellAt(e, j) || PayloadAt(e, j) + e <= CellAt(e, i))
      && (PayloadAt(e, i) - MEMBLOCK_SIZE == CellAt(e, j) <==> i == j)
  {
    hide Padded, CellAt, AllocSize;
    AllocIsCell(Padded(size), elemsPerBlock);
    var e := Padded(size);
    PaddedLeast(size);
    AlignedMultiple(i, e);
    StrideSteps(e, i, elemsPerBlock + 1);
    if i < j {
      StrideSteps(e, i, j);
    } else if j < i {
      StrideSteps(e, j, i);
    }
  }

  lemma AllocIsCell(e: nat, n: nat)
    ensures AllocSize(e, n) == CellAt(e, n + 1)
  {
  }

  lemma AlignedMultiple(i: nat, e: nat)
    requires e % POINTER_SIZE == 0
    ensures CellAt(e, i) % POINTER_SIZE == 0
  {
    var q := Stride(e) / POINTER_SIZE;
    assert Stride(e) == POINTER_SIZE * q;
    assert i * (POINTER_SIZE * q) == POINTER_SIZE * (i * q);
  }
}
