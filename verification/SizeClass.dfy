/** Where a request fits in an element, and which free list an element of a given size belongs to. */
module SizeClass {
  import opened Bits

  const RTE_HEAP_NUM_FREELISTS: nat := 13
  const MALLOC_MINSIZE_LOG2: nat := 8
  const MALLOC_LOG2_INCREMENT: nat := 2

  datatype Option<+T> = None | Some(value: T)

  // ----- free list index

  /** malloc_elem_free_list_index; BitLength(size - 1) is 64 minus its leading zeros. */
  function FreeListIndex(size: nat): (index: nat)
    ensures index < RTE_HEAP_NUM_FREELISTS
  {
    if size <= Pow2(MALLOC_MINSIZE_LOG2) then 0
    else
      MinLog2(size);
      IndexOfLog2(BitLength(size - 1))
  }

  function IndexOfLog2(log2: nat): (index: nat)
    requires log2 > MALLOC_MINSIZE_LOG2
    ensures index < RTE_HEAP_NUM_FREELISTS
  {
    var index := (log2 - MALLOC_MINSIZE_LOG2 + MALLOC_LOG2_INCREMENT - 1) / MALLOC_LOG2_INCREMENT;
    if index <= RTE_HEAP_NUM_FREELISTS - 1 then index else RTE_HEAP_NUM_FREELISTS - 1
  }

  lemma {:induction false} MinLog2(size: nat)
    requires size > Pow2(MALLOC_MINSIZE_LOG2)
    ensures BitLength(size - 1) > MALLOC_MINSIZE_LOG2
  {
    BitLengthIs(size - 1, MALLOC_MINSIZE_LOG2);
  }

  /** The size of an element bounds its list's index from above exactly at the class limits. */
  lemma {:induction false} IndexAtMost(size: nat, i: nat)
    requires i < RTE_HEAP_NUM_FREELISTS - 1
    ensures FreeListIndex(size) <= i <==> size <= Pow2(8 + 2 * i)
  {
    Pow2Monotone(8, 8 + 2 * i);
    if size > Pow2(8) {
      BitLengthIs(size - 1, 8 + 2 * i);
      MinLog2(size);
      LogIndex(BitLength(size - 1), i);
    }
  }

  /** Two bits of size per list, rounded up. */
  lemma {:induction false} LogIndex(log2: nat, i: nat)
    requires log2 > 8 && i < RTE_HEAP_NUM_FREELISTS - 1
    ensures IndexOfLog2(log2) <= i <==> log2 <= 8 + 2 * i
  {
  }

  /**
   The ranges of the lists: the first holds sizes up to 2^8, list i those above the limit of list i - 1 up to
   2^(8+2i), and the last everything above 2^30.
   */
  lemma {:induction false} ClassRange(size: nat, i: nat)
    requires i < RTE_HEAP_NUM_FREELISTS
    ensures i == 0 ==> (FreeListIndex(size) == 0 <==> size <= Pow2(8))
    ensures 0 < i < 12 ==> (FreeListIndex(size) == i <==> Pow2(8 + 2 * (i - 1)) < size <= Pow2(8 + 2 * i))
    ensures i == 12 ==> (FreeListIndex(size) == 12 <==> size > Pow2(30))
  {
    if i == 0 {
      IndexAtMost(size, 0);
    } else if i < 12 {
      MiddleClass(size, i);
    } else {
      LastClass(size);
    }
  }

  lemma {:induction false} MiddleClass(size: nat, i: nat)
    requires 0 < i < 12
    ensures FreeListIndex(size) == i <==> Pow2(8 + 2 * (i - 1)) < size <= Pow2(8 + 2 * i)
  {
    IndexAtMost(size, i);
    IndexAtMost(size, i - 1);
  }

  lemma {:induction false} LastClass(size: nat)
    ensures FreeListIndex(size) == 12 <==> size > Pow2(30)
  {
    var i := 11;
    IndexAtMost(size, i);
    assert FreeListIndex(size) == 12 <==> !(FreeListIndex(size) <= i);
  }

  lemma {:induction false} IndexMonotone(small: nat, large: nat)
    requires small <= large
    ensures FreeListIndex(small) <= FreeListIndex(large)
  {
    var i := FreeListIndex(large);
    if i < 12 {
      IndexAtMost(large, i);
      IndexAtMost(small, i);
    }
  }

  lemma {:induction false} LargerIndexLarger(a: nat, b: nat)
    requires FreeListIndex(a) < FreeListIndex(b)
    ensures a < b
  {
    if b <= a {
      IndexMonotone(b, a);
    }
  }

  // ----- the sizes the heap works with

  /** RTE_CACHE_LINE_ROUNDUP on a 64-bit size. */
  function CacheLineRoundup(size: nat): (r: nat)
    ensures r < TWO_64
  {
    Word64(RTE_CACHE_LINE_SIZE * (Word64(size + RTE_CACHE_LINE_SIZE - 1) / RTE_CACHE_LINE_SIZE))
  }

  /** Rounding up gives the next multiple of a cache line, except that sizes too close to 2^64 become zero. */
  lemma {:induction false} RoundupIs(size: nat)
    requires size < TWO_64
    ensures CacheLineRoundup(size) % RTE_CACHE_LINE_SIZE == 0
    ensures size <= CacheLineRoundup(size) < size + RTE_CACHE_LINE_SIZE <==> size <= TWO_64 - RTE_CACHE_LINE_SIZE
    ensures size > TWO_64 - RTE_CACHE_LINE_SIZE ==> CacheLineRoundup(size) == 0
  {
  }

  // ----- fitting a request

  /** RTE_ALIGN_FLOOR on pointers. */
  function AlignFloor(val: nat, align: nat): nat
    requires align > 0
  {
    AndNot(val, align - 1)
  }

  /** elem_start_pt: where the header of a block of size bytes goes at the high end of an element, if it fits. */
  function ElemStart(addr: nat, elemSize: nat, size: nat, align: nat, header: nat): Option<nat>
    requires align > 0
  {
    if elemSize >= size then HeaderBelow(addr, Word64(Word64(addr + elemSize) - size), align, header) else None
  }

  /** The header in front of the aligned data start, unless that is before the element. */
  function HeaderBelow(addr: nat, dataLimit: nat, align: nat, header: nat): Option<nat>
    requires align > 0
  {
    var dataStart := AlignFloor(dataLimit, align);
    var elemStart := Word64(dataStart - header);
    if elemStart < addr then None else Some(elemStart)
  }

  /** malloc_elem_can_hold */
  predicate CanHold(addr: nat, elemSize: nat, size: nat, align: nat, header: nat)
    requires align > 0
  {
    ElemStart(addr, elemSize, size, align, header).Some?
  }

  /** A place for the header such that header and aligned data lie inside the element. */
  predicate Fits(addr: nat, elemSize: nat, size: nat, align: nat, header: nat, start: int)
    requires align > 0
  {
    addr <= start && (start + header) % align == 0 && start + header + size <= addr + elemSize
  }

  /** Addresses from which subtracting an alignment and a header cannot wrap. */
  predicate Roomy(addr: nat, elemSize: nat, align: nat, header: nat) {
    align + header <= addr && addr + elemSize < TWO_64
  }

  lemma {:induction false} AlignFloorIs(val: nat, align: nat)
    requires IsPow2(align)
    ensures align > 0 && AlignFloor(val, align) == val - val % align
    ensures val - align < AlignFloor(val, align) <= val
  {
    var k: nat :| align == Pow2(k);
    LowMask(val, k);
  }

  /** The closed form of elem_start_pt away from the ends of the address space. */
  lemma {:induction false} StartIs(addr: nat, elemSize: nat, size: nat, align: nat, header: nat)
    requires IsPow2(align) && Roomy(addr, elemSize, align, header) && size <= elemSize
    ensures align > 0
    ensures var start := AlignFloor(addr + elemSize - size, align) - header;
      ElemStart(addr, elemSize, size, align, header) == if start < addr then None else Some(start)
  {
    var data := addr + elemSize - size;
    FloorAboveHeader(addr, data, align, header);
    Word64Same(addr + elemSize);
    Word64Same(data);
    assert ElemStart(addr, elemSize, size, align, header) == HeaderBelow(addr, data, align, header);
  }

  lemma {:induction false} FloorAboveHeader(addr: nat, data: nat, align: nat, header: nat)
    requires IsPow2(align) && align + header <= addr <= data < TWO_64
    ensures align > 0 && Word64(AlignFloor(data, align) - header) == AlignFloor(data, align) - header
  {
    AlignFloorIs(data, align);
    Word64Same(AlignFloor(data, align) - header);
  }

  lemma {:induction false} Word64Same(x: int)
    requires 0 <= x < TWO_64
    ensures Word64(x) == x
  {
  }

  /** The multiple of align just below a bound is the highest one. */
  lemma {:induction false} HighestMultiple(bound: nat, align: nat, x: int)
    requires align > 0 && x % align == 0 && x <= bound
    ensures (bound - bound % align) % align == 0 && x <= bound - bound % align
  {
    var q, a := bound / align, x / align;
    assert bound == align * q + bound % align;
    assert x == align * a;
    DivModUnique(align * q, align, q, 0);
    if a > q {
      MulGap(align, q, a);
    } else {
      MulOrder(align, a, q);
    }
  }

  /** The data of what elem_start_pt gives is aligned and inside the element. */
  lemma {:induction false} StartFits(addr: nat, elemSize: nat, size: nat, align: nat, header: nat, d: nat)
    requires IsPow2(align) && Roomy(addr, elemSize, align, header) && align > 0
    requires CanHold(addr, elemSize, size, align, header)
    requires d == ElemStart(addr, elemSize, size, align, header).value + header
    ensures d % align == 0 && addr + header <= d && d + size <= addr + elemSize
  {
    var bound := addr + elemSize - size;
    StartIs(addr, elemSize, size, align, header);
    FitBelowFloor(bound, align, 0);
    assert d == AlignFloor(bound, align);
  }

  /** elem_start_pt gives the highest aligned fit, and nothing only when there is none. */
  lemma {:induction false} StartIsHighestFit(addr: nat, elemSize: nat, size: nat, align: nat, header: nat)
    requires IsPow2(align) && Roomy(addr, elemSize, align, header)
    ensures align > 0
    ensures var r := ElemStart(addr, elemSize, size, align, header);
      && (r.Some? ==> Fits(addr, elemSize, size, align, header, r.value))
      && (r.Some? ==> forall s :: Fits(addr, elemSize, size, align, header, s) ==> s <= r.value)
      && (r.None? ==> forall s :: !Fits(addr, elemSize, size, align, header, s))
  {
    AlignFloorIs(0, align);
    if size <= elemSize {
      StartIs(addr, elemSize, size, align, header);
      forall s | Fits(addr, elemSize, size, align, header, s)
        ensures s <= AlignFloor(addr + elemSize - size, align) - header
      {
        FitBelowFloor(addr + elemSize - size, align, s + header);
      }
      FitBelowFloor(addr + elemSize - size, align, 0);
    }
  }

  lemma {:induction false} FitBelowFloor(bound: nat, align: nat, x: int)
    requires IsPow2(align) && align > 0 && x % align == 0 && x <= bound
    ensures AlignFloor(bound, align) % align == 0 && x <= AlignFloor(bound, align) <= bound
  {
    AlignFloorIs(bound, align);
    HighestMultiple(bound, align, x);
  }

  /** Searching from the request's own class upwards misses no element that can hold it. */
  lemma {:induction false} HolderInHigherClass(addr: nat, elemSize: nat, size: nat, align: nat, header: nat)
    requires IsPow2(align) && Roomy(addr, elemSize, align, header)
    requires align > 0 && CanHold(addr, elemSize, size, align, header)
    ensures size + header <= elemSize && FreeListIndex(size) <= FreeListIndex(elemSize)
  {
    StartIsHighestFit(addr, elemSize, size, align, header);
    IndexMonotone(size, elemSize);
  }

  lemma {:induction false} LowerClassCannotHold(addr: nat, elemSize: nat, size: nat, align: nat, header: nat)
    requires IsPow2(align) && Roomy(addr, elemSize, align, header) && align > 0
    requires FreeListIndex(elemSize) < FreeListIndex(size)
    ensures !CanHold(addr, elemSize, size, align, header)
  {
    if CanHold(addr, elemSize, size, align, header) {
      HolderInHigherClass(addr, elemSize, size, align, header);
    }
  }

  /** Any element in a strictly higher class than the worst-case need can hold the request. */
  lemma {:induction false} HigherClassHolds(addr: nat, elemSize: nat, size: nat, align: nat, header: nat)
    requires IsPow2(align) && Roomy(addr, elemSize, align, header) && align > 0
    requires FreeListIndex(size + align - 1 + header) < FreeListIndex(elemSize)
    ensures CanHold(addr, elemSize, size, align, header)
  {
    LargerIndexLarger(size + align - 1 + header, elemSize);
    StartIs(addr, elemSize, size, align, header);
    AlignFloorIs(addr + elemSize - size, align);
  }

  // ----- when an allocation leaves a usable remainder

  /**
   The chosen place leaves a whole header in front exactly when some place does: malloc_elem_can_hold does not ask
   for it.
   */
  lemma {:induction false} RoomIffSomePlaceHasIt(addr: nat, elemSize: nat, size: nat, align: nat, header: nat)
    requires IsPow2(align) && Roomy(addr, elemSize, align, header) && align > 0
    requires CanHold(addr, elemSize, size, align, header)
    ensures addr + header <= ElemStart(addr, elemSize, size, align, header).value <==>
              exists s: int :: addr + header <= s && Fits(addr, elemSize, size, align, header, s)
  {
    StartIsHighestFit(addr, elemSize, size, align, header);
    var start := ElemStart(addr, elemSize, size, align, header).value;
    assert Fits(addr, elemSize, size, align, header, start);
  }

  /** An element that exactly holds a request has nothing left: the new header falls on the old one. */
  lemma {:induction false} ExactFitLeavesNothing(addr: nat, size: nat, align: nat, header: nat)
    requires IsPow2(align) && align > 0 && (addr + header) % align == 0
    requires Roomy(addr, header + size, align, header)
    ensures ElemStart(addr, header + size, size, align, header) == Some(addr)
  {
    HighestFitIs(addr, header + size, size, align, header, addr);
  }

  lemma {:induction false} HighestFitIs(addr: nat, elemSize: nat, size: nat, align: nat, header: nat, start: nat)
    requires IsPow2(align) && Roomy(addr, elemSize, align, header) && align > 0
    requires addr <= start && start + header + size == addr + elemSize && (start + header) % align == 0
    ensures ElemStart(addr, elemSize, size, align, header) == Some(start)
  {
    StartIs(addr, elemSize, size, align, header);
    AlignFloorIs(start + header, align);
    assert addr + elemSize - size == start + header;
  }

  /** The same with the 56-byte header of a structure that is not padded to a cache line. */
  lemma {:induction false} ExactFitExample56()
    ensures CanHold(4104, 4152, 4096, 64, 56) && ElemStart(4104, 4152, 4096, 64, 56) == Some(4104)
  {
    assert 64 == Pow2(6);
    ExactFitLeavesNothing(4104, 4096, 64, 56);
  }

  /** A heap of 64-byte headers with a block of 4160 bytes at 4096, asked for 4096 bytes. */
  lemma {:induction false} ExactFitExample()
    ensures CanHold(4096, 4160, 4096, 64, 64) && ElemStart(4096, 4160, 4096, 64, 64) == Some(4096)
  {
    assert 64 == Pow2(6);
    ExactFitLeavesNothing(4096, 4096, 64, 64);
  }
}
