// How a block is laid out: a header that links to the previous block, then as many slots as
// fit. Addresses are integers; nullptr is 0.

module PoolLayout {
  datatype Layout = Layout(blockSize: nat, slotSize: nat, ptrSize: nat)
  {
    /** What the union and the static assertion guarantee: a slot can hold a link, and a block
        is at least two slots long. */
    predicate Sizes()
    {
      0 < ptrSize <= slotSize && 2 * slotSize <= blockSize
    }

    /** How many slots fit behind the header. */
    function SlotCount(): nat
      requires Sizes()
    {
      Fitting(blockSize - ptrSize, slotSize)
    }

    /** It is the quotient the program computes, and at least one. */
    lemma SlotsFit()
      requires Sizes()
      ensures SlotCount() >= 1 && SlotCount() == (blockSize - ptrSize) / slotSize
      ensures SlotCount() * slotSize <= blockSize - ptrSize < (SlotCount() + 1) * slotSize
    {
      FittingIsQuotient(blockSize - ptrSize, slotSize);
      DivisionBounds(blockSize - ptrSize, slotSize);
    }

    /** The address of slot `k`: where `k` increments of the bump pointer lead. */
    function SlotAt(block: int, k: int): int
      decreases if k < 0 then 0 else k
    {
      if k <= 0 then block + ptrSize else SlotAt(block, k - 1) + slotSize
    }

    lemma {:induction false} SlotAddress(block: int, k: nat)
      ensures SlotAt(block, k) == block + ptrSize + k * slotSize
    {
      if k > 0 {
        SlotAddress(block, k - 1);
        Distribute(k - 1, 1, slotSize);
      }
    }

    /** Two blocks do not overlap. */
    predicate Apart(b: int, c: int)
    {
      b + blockSize <= c || c + blockSize <= b
    }

    /** A slot lies between the header of its block and the end of the block. */
    lemma SlotInside(b: int, k: int)
      requires Sizes() && 0 <= k < SlotCount()
      ensures b + ptrSize <= SlotAt(b, k) && SlotAt(b, k) + slotSize <= b + blockSize
    {
      SlotsFit();
      SlotAddress(b, k);
      MultiplyOrder(k + 1, SlotCount(), slotSize);
      assert k * slotSize >= 0 && (k + 1) * slotSize == k * slotSize + slotSize;
    }

    /** Distinct slots of blocks that do not overlap do not overlap. */
    lemma SlotsApart(b: int, j: int, c: int, k: int)
      requires Sizes() && 0 <= j < SlotCount() && 0 <= k < SlotCount()
      requires if b == c then j != k else Apart(b, c)
      ensures SlotAt(b, j) + slotSize <= SlotAt(c, k) || SlotAt(c, k) + slotSize <= SlotAt(b, j)
    {
      SlotInside(b, j);
      SlotInside(c, k);
      if b == c {
        SlotAddress(b, j);
        SlotAddress(c, k);
        if j < k { MultiplyOrder(j + 1, k, slotSize); } else { MultiplyOrder(k + 1, j, slotSize); }
        assert (j + 1) * slotSize == j * slotSize + slotSize && (k + 1) * slotSize == k * slotSize + slotSize;
      }
    }

    /** The bump pointer reaches the end of the block exactly, after the last slot. */
    lemma ReachesEnd(b: int, k: int)
      requires Sizes() && 0 <= k <= SlotCount()
      ensures SlotAt(b, k) >= SlotAt(b, SlotCount()) <==> k == SlotCount()
      ensures SlotAt(b, k + 1) == SlotAt(b, k) + slotSize
    {
      SlotAddress(b, k);
      SlotAddress(b, SlotCount());
      if k < SlotCount() {
        MultiplyOrder(k + 1, SlotCount(), slotSize);
        Distribute(k, 1, slotSize);
      }
    }

    /** The header adds no padding: with a slot size that is a multiple of the alignment, as sizeof
        always is, the slots of a block are aligned exactly when the end of its header is; in an aligned block,
        when the size of a pointer is a multiple of the alignment too. */
    lemma SlotsAligned(b: int, align: nat)
      requires Sizes() && align > 0 && slotSize % align == 0
      ensures (forall k :: 0 <= k < SlotCount() ==> SlotAt(b, k) % align == 0) <==> (b + ptrSize) % align == 0
      ensures b % align == 0 ==> ((b + ptrSize) % align == 0 <==> ptrSize % align == 0)
    {
      var s := ExactQuotient(slotSize, align);
      SlotsFit();
      forall k | 0 <= k < SlotCount() ensures SlotAt(b, k) % align == (b + ptrSize) % align {
        SlotAddress(b, k);
        Associate(k, s, align);
        SameRemainder(k * s, align, b + ptrSize);
      }
      assert SlotAt(b, 0) % align == (b + ptrSize) % align;
      if b % align == 0 {
        var q := ExactQuotient(b, align);
        SameRemainder(q, align, ptrSize);
      }
    }
  }

  /** For example, 16-byte slots that need 16-byte alignment, behind an 8-byte header, are not
      aligned. */
  lemma MisalignedSlot(b: int)
    requires b % 16 == 0
    ensures Layout(4096, 16, 8).Sizes() && Layout(4096, 16, 8).SlotAt(b, 0) % 16 == 8
  {
  }

  // ----- Arithmetic -----

  /** How often `size` fits into `space`. */
  function Fitting(space: int, size: int): nat
    decreases if space < 0 then 0 else space
  {
    if size <= 0 || space < size then 0 else Fitting(space - size, size) + 1
  }

  lemma {:induction false} FittingIsQuotient(space: nat, size: nat)
    requires size > 0
    ensures Fitting(space, size) == space / size
  {
    if space >= size {
      FittingIsQuotient(space - size, size);
      DivideLess(space, size);
    } else {
      QuotientUnique(space, size, 0, space);
    }
  }

  lemma DivideLess(a: int, d: nat)
    requires d > 0
    ensures a / d == (a - d) / d + 1
  {
    var q, r := (a - d) / d, (a - d) % d;
    assert a - d == q * d + r;
    Distribute(q, 1, d);
    QuotientUnique(a, d, q + 1, r);
  }

  lemma DivisionBounds(a: nat, d: nat)
    requires d > 0 && a >= d
    ensures a / d >= 1 && (a / d) * d <= a < (a / d + 1) * d
  {
  }

  lemma ExactQuotient(a: int, d: nat) returns (q: int)
    requires d > 0 && a % d == 0
    ensures a == q * d
  {
    q := a / d;
  }

  lemma MultiplyOrder(a: int, b: int, c: nat)
    requires a <= b
    ensures a * c <= b * c
  {
  }

  lemma Associate(a: int, b: int, c: int)
    ensures a * (b * c) == (a * b) * c
  {
  }

  lemma Distribute(a: int, b: int, c: int)
    ensures (a + b) * c == a * c + b * c
  {
  }

  lemma SameRemainder(q: int, d: nat, r: int)
    requires d > 0
    ensures (q * d + r) % d == r % d
  {
    var x := q * d + r;
    assert r == (r / d) * d + r % d;
    Distribute(q, r / d, d);
    assert x == (q + r / d) * d + r % d;
    RemainderUnique(x, d, q + r / d, r % d);
  }

  lemma RemainderUnique(x: int, d: nat, q: int, r: int)
    requires d > 0 && x == q * d + r && 0 <= r < d
    ensures x % d == r
  {
    var p, t := x / d, x % d;
    assert x == p * d + t;
    assert (p - q) * d == r - t by { Distribute(p, -q, d); }
    if p > q { MultiplyOrder(1, p - q, d); } else if p < q { MultiplyOrder(p - q, -1, d); }
  }

  lemma QuotientUnique(x: int, d: nat, q: int, r: int)
    requires d > 0 && x == q * d + r && 0 <= r < d
    ensures x / d == q
  {
    var p, t := x / d, x % d;
    assert x == p * d + t;
    assert (p - q) * d == r - t by { Distribute(p, -q, d); }
    if p > q { MultiplyOrder(1, p - q, d); } else if p < q { MultiplyOrder(p - q, -1, d); }
  }
}
