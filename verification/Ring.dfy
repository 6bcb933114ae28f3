/**
 The ring of ring.c as one thread at a time sees it: creation, and the
 enqueue and dequeue operations as a bounded first-in first-out queue.
 Interleaved use by several threads is the subject of RingProtocol.
 */
module Ring {
  import opened Bits
  import opened Alignment
  import opened RingCopy
  import opened QueueSpec

  datatype SyncType = MultiThread | SingleThread

  const RING_F_SP_ENQ: nat := 0x0001
  const RING_F_SC_DEQ: nat := 0x0002
  const RING_F_EXACT_SZ: nat := 0x0004
  const RING_F_MASK: nat := 0x001f
  const RTE_RING_SZ_MASK: nat := 0x7fff_ffff
  /** sizeof(struct rte_ring): four words and two head/tail records of three words. */
  const RING_HEADER_LEN: nat := 40
  const EINVAL: int := 22
  const ENOBUFS: int := 105
  const ENOENT: int := 2

  // ----- sizes

  /** POWEROF2(x) on a 32-bit word. */
  predicate PowerOf2(x: nat) {
    And(Word32(x - 1), x) == 0
  }

  lemma PowerOf2Accepts(x: nat)
    requires x < TWO_32
    ensures PowerOf2(x) <==> x == 0 || IsPow2(x)
  {
    if x > 0 {
      assert Word32(x - 1) == x - 1;
      PowerTest(x);
    } else {
      assert And(Word32(x - 1), 0) == 0;
    }
  }

  /** RTE_ALIGN(sz, RTE_CACHE_LINE_SIZE) */
  function AlignCacheLine(sz: nat): nat {
    AndNot(sz + (RTE_CACHE_LINE_SIZE - 1), RTE_CACHE_LINE_SIZE - 1)
  }

  /** rte_ring_get_memsize_elem: bytes for the header and count elements, or a negative error. */
  function GetMemsizeElem(esize: nat, count: nat): int {
    if esize % 4 != 0 then -EINVAL
    else if !PowerOf2(count) || count > RTE_RING_SZ_MASK then -EINVAL
    else
      MulNonNegative(count, esize);
      AlignCacheLine(RING_HEADER_LEN + count * esize)
  }

  lemma MemsizeMeaning(esize: nat, count: nat)
    requires esize < TWO_32 && count < TWO_32
    ensures GetMemsizeElem(esize, count) >= 0 <==>
            esize % 4 == 0 && (count == 0 || IsPow2(count)) && count <= RTE_RING_SZ_MASK
    ensures GetMemsizeElem(esize, count) >= 0 ==>
            0 <= count * esize <= GetMemsizeElem(esize, count) - RING_HEADER_LEN < count * esize + RTE_CACHE_LINE_SIZE
            && GetMemsizeElem(esize, count) % RTE_CACHE_LINE_SIZE == 0
  {
    PowerOf2Accepts(count);
    MulNonNegative(count, esize);
    AlignCacheLineMeaning(RING_HEADER_LEN + count * esize);
  }

  lemma AlignCacheLineMeaning(sz: nat)
    ensures 0 <= AlignCacheLine(sz) - sz < RTE_CACHE_LINE_SIZE && AlignCacheLine(sz) % RTE_CACHE_LINE_SIZE == 0
  {
    assert Pow2(6) == 64;
    LowMask(sz + 63, 6);
  }

  lemma SizeLimit(count: nat)
    requires IsPow2(count) && count <= RTE_RING_SZ_MASK
    ensures count <= 0x4000_0000
  {
    Pow2Values();
    var k: nat :| count == Pow2(k);
    Pow2Order(k, 31);
  }

  // ----- flags

  /** RING_F_SP_ENQ, RING_F_SC_DEQ and RING_F_EXACT_SZ, read off the flag number. */
  predicate ProducerFlag(flags: nat) {
    flags % 2 == 1
  }

  predicate ConsumerFlag(flags: nat) {
    (flags / 2) % 2 == 1
  }

  predicate ExactFlag(flags: nat) {
    (flags / 4) % 2 == 1
  }

  /** What the masks of the code leave of a flag word, whatever its other bits are. */
  lemma FlagBits(flags: nat)
    ensures And(flags, RING_F_SP_ENQ) == if ProducerFlag(flags) then RING_F_SP_ENQ else 0
    ensures And(flags, RING_F_SC_DEQ) == if ConsumerFlag(flags) then RING_F_SC_DEQ else 0
    ensures And(flags, RING_F_EXACT_SZ) == if ExactFlag(flags) then RING_F_EXACT_SZ else 0
    ensures AndNot(flags, RING_F_MASK) == 0 <==> flags < 32
  {
    FirstPowers();
    OneFlag(flags, 0, RING_F_SP_ENQ);
    OneFlag(flags, 1, RING_F_SC_DEQ);
    OneFlag(flags, 2, RING_F_EXACT_SZ);
    NoOtherFlags(flags);
  }

  lemma OneFlag(flags: nat, k: nat, mask: nat)
    requires mask == Pow2(k)
    ensures And(flags, mask) == if (flags / mask) % 2 == 1 then mask else 0
  {
    SingleBit(flags, k);
  }

  lemma NoOtherFlags(flags: nat)
    ensures AndNot(flags, RING_F_MASK) == 0 <==> flags < 32
  {
    FirstPowers();
    LowMask(flags, 5);
  }

  lemma FirstPowers()
    ensures Pow2(0) == 1 && Pow2(1) == 2 && Pow2(2) == 4 && Pow2(5) == 32
  {
  }

  // ----- counts

  /** The number of slots asked of the allocator for a requested element count. */
  function SlotCount(count: nat, flags: nat): nat
    requires count < TWO_32
  {
    if ExactFlag(flags) then Align32(Word32(count + 1)) else count
  }

  /** Requests for which creation returns a usable ring. */
  ghost predicate GoodCount(count: nat, flags: nat) {
    if ExactFlag(flags) then count < 0x4000_0000
    else IsPow2(count) && count <= RTE_RING_SZ_MASK
  }

  /** Requests that creation accepts although the ring they give has no slots behind its mask. */
  ghost predicate DegenerateCount(count: nat, flags: nat) {
    if ExactFlag(flags) then TWO_31 <= count else count == 0
  }

  /** The least power of two with a slot to spare. */
  ghost predicate LeastAbove(size: nat, count: nat) {
    IsPow2(size) && count < size && forall p: nat :: IsPow2(p) && count < p ==> size <= p
  }

  /** Size and capacity of a usable ring: count elements can be stored, or one less than the slots. */
  ghost predicate SizedFor(size: nat, capacity: nat, count: nat, flags: nat) {
    if ExactFlag(flags) then capacity == count && LeastAbove(size, count)
    else size == count && capacity == count - 1
  }

  /** The shape every operation relies on: a power-of-two size, its mask, and a capacity that leaves a slot over. */
  ghost predicate GoodShape(size: nat, mask: nat, capacity: nat) {
    IsPow2(size) && mask == size - 1 && capacity < size
  }

  /** Which counts are accepted, and which of those give a sound shape. */
  lemma CreationCases(count: nat, flags: nat)
    requires count < TWO_32
    ensures GoodCount(count, flags) || DegenerateCount(count, flags) <==>
            PowerOf2(SlotCount(count, flags)) && SlotCount(count, flags) <= RTE_RING_SZ_MASK
    ensures GoodCount(count, flags) ==>
            && IsPow2(SlotCount(count, flags)) && SlotCount(count, flags) <= 0x4000_0000
            && if ExactFlag(flags) then LeastAbove(SlotCount(count, flags), count)
               else SlotCount(count, flags) == count && count >= 1
    ensures DegenerateCount(count, flags) ==> SlotCount(count, flags) == 0
    ensures SlotCount(count, flags) < TWO_32
    ensures !(GoodCount(count, flags) && DegenerateCount(count, flags))
  {
    var slots := SlotCount(count, flags);
    if ExactFlag(flags) {
      ExactSlots(count);
      PowerOf2Accepts(slots);
    } else {
      PowerOf2Accepts(count);
      if GoodCount(count, flags) {
        SizeLimit(count);
        Pow2Positive(count);
      } else if DegenerateCount(count, flags) {
        Pow2NotZero();
      }
    }
  }

  lemma Pow2Positive(x: nat)
    requires IsPow2(x)
    ensures x >= 1
  {
    var k: nat :| x == Pow2(k);
  }

  lemma Pow2NotZero()
    ensures !IsPow2(0)
  {
  }

  lemma ExactSlots(count: nat)
    requires count < TWO_32
    ensures count < 0x4000_0000 ==>
            Align32(Word32(count + 1)) <= 0x4000_0000
    ensures count < TWO_31 ==> LeastAbove(Align32(Word32(count + 1)), count)
    ensures 0x4000_0000 <= count < TWO_31 ==> Align32(Word32(count + 1)) == TWO_31
    ensures TWO_31 <= count ==> Align32(Word32(count + 1)) == 0
  {
    if count < TWO_31 {
      CeilPow2IsLeast(count + 1);
      CeilUpTo30(count + 1);
      assert Align32(Word32(count + 1)) == CeilPow2(count + 1);
    }
  }

  lemma CeilUpTo30(x: nat)
    requires 1 <= x <= TWO_31
    ensures x <= 0x4000_0000 <==> CeilPow2(x) <= 0x4000_0000
    ensures x > 0x4000_0000 ==> CeilPow2(x) == TWO_31
  {
    Pow2Values();
    CeilPow2IsLeast(x);
    var k: nat :| CeilPow2(x) == Pow2(k);
    assert IsPow2(TWO_31) && IsPow2(0x4000_0000);
    Pow2Order(30, k);
  }

  // ----- the ring object

  class HeadTail {
    var head: nat
    var tail: nat
    var syncType: SyncType

    /** A record in memory fresh from the allocator: its fields hold anything. */
    constructor () {
    }

    /** rte_atomic32_cmpset on the head. */
    method CompareAndSetHead(exp: nat, src: nat) returns (res: bool)
      modifies this`head
      ensures res == (old(head) == exp)
      ensures head == if res then src else old(head)
    {
      res := head == exp;
      if res {
        head := src;
      }
    }

    /** The final store of update_tail; with one thread running the wait before it is already over. */
    method UpdateTail(oldVal: nat, newVal: nat, single: bool)
      requires single || tail == oldVal
      modifies this`tail
      ensures tail == newVal
    {
      tail := newVal;
    }
  }

  method GetSyncType(flags: nat) returns (ret: int, prodSync: SyncType, consSync: SyncType)
    ensures ret == 0 <==> SyncFlagsKnown(flags)
    ensures ret == 0 ==> (prodSync == SingleThread <==> ProducerFlag(flags))
    ensures ret == 0 ==> (consSync == SingleThread <==> ConsumerFlag(flags))
  {
    prodSync, consSync := MultiThread, MultiThread;
    var prodFlag, consFlag := And(flags, RING_F_SP_ENQ), And(flags, RING_F_SC_DEQ);
    if prodFlag == 0 {
      prodSync := MultiThread;
    } else if prodFlag == RING_F_SP_ENQ {
      prodSync := SingleThread;
    } else {
      return -EINVAL, prodSync, consSync;
    }
    if consFlag == 0 {
      consSync := MultiThread;
    } else if consFlag == RING_F_SC_DEQ {
      consSync := SingleThread;
    } else {
      return -EINVAL, prodSync, consSync;
    }
    FlagBits(flags);
    ret := 0;
  }

  predicate SyncFlagsKnown(flags: nat) {
    && (And(flags, RING_F_SP_ENQ) == 0 || And(flags, RING_F_SP_ENQ) == RING_F_SP_ENQ)
    && (And(flags, RING_F_SC_DEQ) == 0 || And(flags, RING_F_SC_DEQ) == RING_F_SC_DEQ)
  }

  /** The default branches of get_sync_type are never taken: a one-bit mask leaves zero or that bit. */
  lemma SyncFlagsAlwaysKnown(flags: nat)
    ensures SyncFlagsKnown(flags)
  {
    FlagBits(flags);
  }

  class Ring {
    var flags: nat
    var size: nat
    var mask: nat
    var capacity: nat
    const prod: HeadTail
    const cons: HeadTail

    /** The element size the memory was sized for. */
    const esize: nat
    /** The memory behind the header, in copied words. */
    const slots: array<Word>

    /** Elements ever enqueued and ever dequeued; head and tail hold their low 32 bits. */
    ghost var enqueued: nat
    ghost var dequeued: nat

    ghost predicate WellFormed()
      reads this
    {
      GoodShape(size, mask, capacity) && size <= 0x4000_0000
    }

    /** The memory holds all slots, and scaled indices of a copy fit in a 32-bit word. */
    ghost predicate SlotsFit()
      reads this
    {
      Scale(esize) > 0 && 0 < size * Scale(esize) <= slots.Length && 2 * (size * Scale(esize)) <= TWO_32
    }

    /** The words of count elements from a position on. */
    ghost function Stored(position: nat, count: int): seq<Word>
      reads this, slots
      requires size > 0 && SlotsFit() && count >= 0
    {
      Reading(slots[..], size * Scale(esize), (position % size) * Scale(esize), Words(count, Scale(esize)))
    }

    ghost predicate Valid()
      reads this, prod, cons
    {
      && prod != cons
      && WellFormed()
      && SlotsFit()
      && dequeued <= enqueued <= dequeued + capacity
      && prod.head == prod.tail == Word32(enqueued)
      && cons.head == cons.tail == Word32(dequeued)
    }

    /** Elements in the ring. */
    ghost function Count(): int
      reads this
    {
      enqueued - dequeued
    }

    /** The words of the elements in the ring, oldest first. */
    ghost function Contents(): seq<Word>
      reads this, prod, cons, slots
      requires Valid()
    {
      Stored(dequeued, Count())
    }

    /** Memory for a ring, of the given number of bytes in all. */
    constructor Allocate(esize: nat, bytes: nat)
      requires bytes >= RING_HEADER_LEN
      ensures this.esize == esize && prod != cons && fresh(prod) && fresh(cons) && fresh(slots)
      ensures slots.Length == (bytes - RING_HEADER_LEN) / (if esize == 8 then 8 else 4)
    {
      this.esize := esize;
      prod := new HeadTail();
      cons := new HeadTail();
      slots := new Word[(bytes - RING_HEADER_LEN) / (if esize == 8 then 8 else 4)];
    }

    /** rte_ring_init */
    method Init(count: nat, newFlags: nat) returns (ret: int)
      requires count < TWO_32 && prod != cons
      modifies this, prod, cons
      ensures ret == 0 <==>
        newFlags < 32 && (ExactFlag(newFlags) || ((count == 0 || IsPow2(count)) && count <= RTE_RING_SZ_MASK))
      ensures newFlags >= 32 ==> unchanged(this) && unchanged(prod) && unchanged(cons)
      ensures newFlags < 32 ==>
        && flags == newFlags && enqueued == dequeued == 0
        && prod.head == prod.tail == cons.head == cons.tail == 0
        && (prod.syncType == SingleThread <==> ProducerFlag(newFlags))
        && (cons.syncType == SingleThread <==> ConsumerFlag(newFlags))
      ensures newFlags < 32 && ret != 0 ==> size == mask == capacity == 0
      ensures ret == 0 ==> size == SlotCount(count, newFlags) && mask == Word32(size - 1)
      ensures ret == 0 && ExactFlag(newFlags) ==>
        capacity == count && if count < TWO_31 then LeastAbove(size, count) else size == 0
      ensures ret == 0 && !ExactFlag(newFlags) ==> size == count && capacity == mask
    {
      FlagBits(newFlags);
      PowerOf2Accepts(count);
      ExactSlots(count);
      if AndNot(newFlags, RING_F_MASK) != 0 {
        return -EINVAL;
      }
      size, mask, capacity := 0, 0, 0;
      prod.head, prod.tail, cons.head, cons.tail := 0, 0, 0, 0;
      enqueued, dequeued := 0, 0;
      flags := newFlags;
      var prodSync, consSync;
      SyncFlagsAlwaysKnown(newFlags);
      ret, prodSync, consSync := GetSyncType(newFlags);
      prod.syncType, cons.syncType := prodSync, consSync;
      if And(newFlags, RING_F_EXACT_SZ) != 0 {
        size := Align32Pow2(Word32(count + 1));
        mask := Word32(size - 1);
        capacity := count;
      } else {
        if !PowerOf2(count) || count > RTE_RING_SZ_MASK {
          return -EINVAL;
        }
        size := count;
        mask := Word32(count - 1);
        assert mask == Word32(size - 1);
        capacity := mask;
      }
      ret := 0;
    }

    // ----- moving the heads

    /** __rte_ring_move_prod_head with no other thread running. */
    method MoveProdHead(isSp: bool, max: nat, behavior: Behavior)
      returns (n: nat, oldHead: nat, newHead: nat, freeEntries: nat)
      requires Valid()
      modifies prod`head
      ensures freeEntries == capacity - Count()
      ensures n == Granted(max, freeEntries, behavior)
      ensures oldHead == prod.tail == Word32(enqueued)
      ensures prod.head == if n == 0 then oldHead else newHead
      ensures n > 0 ==> newHead == Word32(enqueued + n)
    {
      var success := false;
      n, oldHead, newHead, freeEntries := 0, 0, 0, 0;
      while !success
        invariant success ==> n > 0 && prod.head == newHead == Word32(enqueued + n)
        invariant success ==> oldHead == Word32(enqueued) && freeEntries == capacity - Count()
        invariant success ==> n == Granted(max, freeEntries, behavior)
        invariant !success ==> prod.head == Word32(enqueued)
        decreases if success then 0 else 1
      {
        n := max;
        oldHead := prod.head;
        freeEntries := Word32(capacity + cons.tail - oldHead);
        WordDifference(capacity, dequeued, enqueued);
        if n > freeEntries {
          n := if behavior == Fixed then 0 else freeEntries;
        }
        if n == 0 {
          return;
        }
        newHead := Word32(oldHead + n);
        WordSum(enqueued, n);
        if isSp {
          prod.head := newHead;
          success := true;
        } else {
          success := prod.CompareAndSetHead(oldHead, newHead);
        }
      }
    }

    /** __rte_ring_move_cons_head with no other thread running. */
    method MoveConsHead(isSc: bool, max: nat, behavior: Behavior)
      returns (n: nat, oldHead: nat, newHead: nat, entries: nat)
      requires Valid()
      modifies cons`head
      ensures entries == Count()
      ensures n == Granted(max, entries, behavior)
      ensures oldHead == cons.tail == Word32(dequeued)
      ensures cons.head == if n == 0 then oldHead else newHead
      ensures n > 0 ==> newHead == Word32(dequeued + n)
    {
      var success := false;
      n, oldHead, newHead, entries := 0, 0, 0, 0;
      while !success
        invariant success ==> n > 0 && cons.head == newHead == Word32(dequeued + n)
        invariant success ==> oldHead == Word32(dequeued) && entries == Count()
        invariant success ==> n == Granted(max, entries, behavior)
        invariant !success ==> cons.head == Word32(dequeued)
        decreases if success then 0 else 1
      {
        n := max;
        oldHead := cons.head;
        entries := Word32(prod.tail - oldHead);
        WordDifference(0, enqueued, dequeued);
        if n > entries {
          n := if behavior == Fixed then 0 else entries;
        }
        if n == 0 {
          return;
        }
        newHead := Word32(oldHead + n);
        WordSum(dequeued, n);
        if isSc {
          cons.head := newHead;
          success := true;
        } else {
          success := cons.CompareAndSetHead(oldHead, newHead);
        }
      }
    }

    // ----- whole operations

    /** __rte_ring_do_enqueue_elem with no other thread running. */
    method DoEnqueueElem(obj: seq<Word>, max: nat, behavior: Behavior, isSp: bool) returns (n: nat, freeSpace: nat)
      requires Valid() && |obj| == Words(max, Scale(esize))
      modifies this`enqueued, prod`head, prod`tail, slots
      ensures Valid()
      ensures n == Granted(max, old(capacity - Count()), behavior)
      ensures freeSpace == capacity - Count() && Count() == old(Count()) + n
      ensures n < max ==> if behavior == Variable then Count() == capacity
                          else n == 0 && max > capacity - Count()
      ensures Words(n, Scale(esize)) <= |obj| && Contents() == old(Contents()) + obj[..Words(n, Scale(esize))]
    {
      var prodHead, prodNext, freeEntries;
      n, prodHead, prodNext, freeEntries := MoveProdHead(isSp, max, behavior);
      WordsOrder(n, max, Scale(esize));
      if n != 0 {
        PutIn(prodHead, prodNext, obj[..Words(n, Scale(esize))], n, isSp);
      } else {
        assert obj[..0] == [];
      }
      freeSpace := freeEntries - n;
    }

    /** The copy and the tail update of an enqueue whose head move reserved n elements. */
    method PutIn(prodHead: nat, prodNext: nat, obj: seq<Word>, n: nat, isSp: bool)
      requires Reserved(prod, enqueued, n) && cons.head == cons.tail == Word32(dequeued)
      requires 0 < n && enqueued + n <= dequeued + capacity && dequeued <= enqueued
      requires prodHead == Word32(enqueued) && prodNext == Word32(enqueued + n) && |obj| == Words(n, Scale(esize))
      modifies this`enqueued, prod`tail, slots
      ensures Valid() && enqueued == old(enqueued) + n
      ensures Contents() == old(Stored(dequeued, Count())) + obj
    {
      CopyIn(prodHead, obj, n);
      prod.UpdateTail(prodHead, prodNext, isSp);
      enqueued := enqueued + n;
    }

    /** Between the head move and the tail update: the head is n ahead of the tail. */
    ghost predicate Reserved(side: HeadTail, position: nat, n: nat)
      reads this, side
    {
      && prod != cons && WellFormed() && SlotsFit()
      && side.head == Word32(position + n) && side.tail == Word32(position)
    }

    method CopyIn(prodHead: nat, obj: seq<Word>, n: nat)
      requires WellFormed() && SlotsFit()
      requires dequeued <= enqueued && enqueued + n <= dequeued + capacity && prodHead == Word32(enqueued)
      requires 0 < n && |obj| == Words(n, Scale(esize))
      modifies slots
      ensures Stored(dequeued, Count() + n) == old(Stored(dequeued, Count())) + obj
    {
      LowBits(enqueued, size);
      CopyFits(n, size, Scale(esize));
      EnqueueElems(slots, size, mask, prodHead, obj, esize, n);
      EnqueuedContents(old(slots[..]), size, Scale(esize), dequeued, Count(), obj, n);
    }

    /** __rte_ring_do_dequeue_elem with no other thread running. */
    method DoDequeueElem(obj: array<Word>, max: nat, behavior: Behavior, isSc: bool) returns (n: nat, available: nat)
      requires Valid() && obj.Length == Words(max, Scale(esize)) && obj != slots
      modifies this`dequeued, cons`head, cons`tail, obj
      ensures Valid()
      ensures n == Granted(max, old(Count()), behavior)
      ensures available == Count() == old(Count()) - n
      ensures n < max ==> if behavior == Variable then Count() == 0 else n == 0 && max > Count()
      ensures Words(n, Scale(esize)) <= obj.Length
      ensures obj[..Words(n, Scale(esize))] + Contents() == old(Contents())
      ensures obj[Words(n, Scale(esize))..] == old(obj[..])[Words(n, Scale(esize))..]
    {
      var consHead, consNext, entries;
      n, consHead, consNext, entries := MoveConsHead(isSc, max, behavior);
      WordsOrder(n, max, Scale(esize));
      if n != 0 {
        TakeOut(consHead, consNext, obj, n, isSc);
      } else {
        assert obj[..0] == [];
      }
      available := entries - n;
    }

    /** The copy and the tail update of a dequeue whose head move reserved n elements. */
    method TakeOut(consHead: nat, consNext: nat, obj: array<Word>, n: nat, isSc: bool)
      requires Reserved(cons, dequeued, n) && prod.head == prod.tail == Word32(enqueued)
      requires 0 < n && dequeued + n <= enqueued <= dequeued + capacity && obj != slots
      requires consHead == Word32(dequeued) && consNext == Word32(dequeued + n) && Words(n, Scale(esize)) <= obj.Length
      modifies this`dequeued, cons`tail, obj
      ensures Valid() && dequeued == old(dequeued) + n
      ensures obj[..Words(n, Scale(esize))] + Contents() == old(Stored(dequeued, Count()))
      ensures obj[Words(n, Scale(esize))..] == old(obj[..])[Words(n, Scale(esize))..]
    {
      CopyOut(consHead, obj, n);
      cons.UpdateTail(consHead, consNext, isSc);
      dequeued := dequeued + n;
    }

    method CopyOut(consHead: nat, obj: array<Word>, n: nat)
      requires WellFormed() && SlotsFit() && obj != slots
      requires dequeued + n <= enqueued <= dequeued + capacity && consHead == Word32(dequeued)
      requires 0 < n && Words(n, Scale(esize)) <= obj.Length
      modifies obj
      ensures obj[..Words(n, Scale(esize))] + Stored(dequeued + n, Count() - n) == Stored(dequeued, Count())
      ensures obj[Words(n, Scale(esize))..] == old(obj[..])[Words(n, Scale(esize))..]
    {
      LowBits(dequeued, size);
      CopyFits(n, size, Scale(esize));
      DequeueElems(slots, size, mask, consHead, obj, esize, n);
      DequeuedContents(slots[..], size, Scale(esize), dequeued, n, Count());
    }

    method EnqueueBulkElem(obj: seq<Word>, max: nat) returns (n: nat, freeSpace: nat)
      requires Valid() && |obj| == Words(max, Scale(esize))
      modifies this`enqueued, prod`head, prod`tail, slots
      ensures Valid()
      ensures n == (if max <= old(capacity - Count()) then max else 0)
      ensures freeSpace == capacity - Count() && Count() == old(Count()) + n
      ensures Contents() == if n == 0 then old(Contents()) else old(Contents()) + obj
    {
      match prod.syncType
      case MultiThread => n, freeSpace := DoEnqueueElem(obj, max, Fixed, false);
      case SingleThread => n, freeSpace := DoEnqueueElem(obj, max, Fixed, true);
    }

    method DequeueBulkElem(obj: array<Word>, max: nat) returns (n: nat, available: nat)
      requires Valid() && obj.Length == Words(max, Scale(esize)) && obj != slots
      modifies this`dequeued, cons`head, cons`tail, obj
      ensures Valid()
      ensures n == if max <= old(Count()) then max else 0
      ensures available == Count() == old(Count()) - n
      ensures if n == 0 then Contents() == old(Contents()) && obj[..] == old(obj[..])
              else obj[..] + Contents() == old(Contents())
    {
      match cons.syncType
      case MultiThread => n, available := DoDequeueElem(obj, max, Fixed, false);
      case SingleThread => n, available := DoDequeueElem(obj, max, Fixed, true);
    }

    /** rte_ring_enqueue: one pointer-sized object. */
    method Enqueue(obj: Word) returns (ret: int)
      requires Valid() && esize == 8
      modifies this`enqueued, prod`head, prod`tail, slots
      ensures Valid()
      ensures ret == if old(Count()) < capacity then 0 else -ENOBUFS
      ensures Count() == old(Count()) + if ret == 0 then 1 else 0
      ensures Contents() == if ret == 0 then old(Contents()) + [obj] else old(Contents())
    {
      var n, _ := EnqueueBulkElem([obj], 1);
      ret := if n != 0 then 0 else -ENOBUFS;
    }

    /** rte_ring_dequeue: one pointer-sized object. */
    method Dequeue(obj: array<Word>) returns (ret: int)
      requires Valid() && esize == 8 && obj.Length == 1 && obj != slots
      modifies this`dequeued, cons`head, cons`tail, obj
      ensures Valid()
      ensures ret == if old(Contents()) != [] then 0 else -ENOENT
      ensures Count() == old(Count()) - if ret == 0 then 1 else 0
      ensures if ret == 0 then old(Contents()) == [obj[0]] + Contents()
              else Contents() == old(Contents()) && obj[0] == old(obj[0])
    {
      var n, _ := DequeueBulkElem(obj, 1);
      ret := if n != 0 then 0 else -ENOENT;
    }
  }

  /**
   With supported flags a created ring is sound exactly when the count was a good one, and then empty, of the size
   and capacity the count and the exact-size flag ask for.
   */
  ghost predicate Created(r: Ring, count: nat, flags: nat)
    reads r, r.prod, r.cons, r.slots
    requires count < TWO_32
  {
    && (r.WellFormed() <==> GoodCount(count, flags))
    && (GoodCount(count, flags) ==>
      && SizedFor(r.size, r.capacity, count, flags)
      && 0 <= r.size * Scale(r.esize) <= r.slots.Length
      && (Scale(r.esize) > 0 && 2 * (r.size * Scale(r.esize)) <= TWO_32 ==> r.Valid() && r.Contents() == [])
      && (r.prod.syncType == SingleThread <==> ProducerFlag(flags))
      && (r.cons.syncType == SingleThread <==> ConsumerFlag(flags)))
  }

  /** rte_ring_create_elem; mallocOk says whether the allocator found memory. */
  method CreateElem(esize: nat, count: nat, flags: nat, mallocOk: bool) returns (r: Ring?)
    requires esize < TWO_32 && count < TWO_32
    ensures r != null <==> mallocOk && esize % 4 == 0 && (GoodCount(count, flags) || DegenerateCount(count, flags))
    ensures r != null ==> fresh(r) && fresh(r.prod) && fresh(r.cons) && fresh(r.slots) && r.esize == esize
    ensures r != null && flags < 32 ==> Created(r, count, flags)
  {
    FlagBits(flags);
    var requestedCount := count;
    var slotCount := count;
    if And(flags, RING_F_EXACT_SZ) != 0 {
      slotCount := Align32Pow2(Word32(count + 1));
    }
    CreationCases(count, flags);
    MemsizeMeaning(esize, slotCount);
    var ringSize := GetMemsizeElem(esize, slotCount);
    if ringSize < 0 {
      return null;
    }
    if mallocOk {
      r := new Ring.Allocate(esize, ringSize);
      BufferLargeEnough(esize, slotCount, ringSize);
      var ret := r.Init(requestedCount, flags);
      if ret == 0 {
        CreatedRing(r, count, flags);
      }
    } else {
      r := null;
    }
  }

  lemma FreshRing(r: Ring)
    requires r.WellFormed() && r.prod != r.cons
    requires r.prod.head == r.prod.tail == r.cons.head == r.cons.tail == 0 && r.enqueued == r.dequeued == 0
    requires Scale(r.esize) > 0 && r.size * Scale(r.esize) <= r.slots.Length && 2 * (r.size * Scale(r.esize)) <= TWO_32
    ensures r.Valid() && r.Contents() == []
  {
    MulGap(Scale(r.esize), 0, r.size);
  }

  /** What a successful initialisation leaves is a usable ring exactly when the count was a good one. */
  lemma CreatedRing(r: Ring, count: nat, flags: nat)
    requires count < TWO_32 && (GoodCount(count, flags) || DegenerateCount(count, flags))
    requires r.size == SlotCount(count, flags) && r.mask == Word32(r.size - 1)
    requires r.capacity == if ExactFlag(flags) then count else r.mask
    requires r.prod.head == r.prod.tail == r.cons.head == r.cons.tail == 0 && r.enqueued == r.dequeued == 0
    requires r.prod != r.cons && 0 <= r.size * Scale(r.esize) <= r.slots.Length
    requires r.prod.syncType == SingleThread <==> ProducerFlag(flags)
    requires r.cons.syncType == SingleThread <==> ConsumerFlag(flags)
    ensures Created(r, count, flags)
  {
    CreatedShape(count, flags, r.size, r.mask, r.capacity);
    if GoodCount(count, flags) && Scale(r.esize) > 0 && 2 * (r.size * Scale(r.esize)) <= TWO_32 {
      FreshRing(r);
    }
  }

  lemma CreatedShape(count: nat, flags: nat, size: nat, mask: nat, capacity: nat)
    requires count < TWO_32 && (GoodCount(count, flags) || DegenerateCount(count, flags))
    requires size == SlotCount(count, flags) && mask == Word32(size - 1)
    requires capacity == if ExactFlag(flags) then count else mask
    ensures GoodShape(size, mask, capacity) && size <= 0x4000_0000 <==> GoodCount(count, flags)
    ensures GoodCount(count, flags) ==> SizedFor(size, capacity, count, flags)
  {
    CreationCases(count, flags);
    if GoodCount(count, flags) {
      assert mask == size - 1;
    } else {
      Pow2NotZero();
    }
  }

  /** rte_ring_create: a ring of pointers. */
  method Create(count: nat, flags: nat, mallocOk: bool) returns (r: Ring?)
    requires count < TWO_32
    ensures r != null <==> mallocOk && (GoodCount(count, flags) || DegenerateCount(count, flags))
    ensures r != null ==> fresh(r) && fresh(r.prod) && fresh(r.cons) && fresh(r.slots) && r.esize == 8
    ensures r != null && flags < 32 ==> (r.Valid() <==> GoodCount(count, flags))
    ensures r != null && flags < 32 && GoodCount(count, flags) ==>
      && r.Contents() == [] && SizedFor(r.size, r.capacity, count, flags)
      && (r.prod.syncType == SingleThread <==> ProducerFlag(flags))
      && (r.cons.syncType == SingleThread <==> ConsumerFlag(flags))
  {
    r := CreateElem(8, count, flags, mallocOk);
  }

  /**
   A fresh ring takes one object after another until the first refusal: as many as were asked for with the exact-size
   flag, and one less than asked for without it.
   */
  method FillFresh(count: nat, flags: nat, obj: Word) returns (accepted: nat)
    requires count < TWO_32 && flags < 32 && GoodCount(count, flags)
    ensures accepted == if ExactFlag(flags) then count else count - 1
  {
    var r := Create(count, flags, true);
    var ret := 0;
    accepted := 0;
    while ret == 0
      invariant fresh(r) && fresh(r.prod) && fresh(r.cons) && fresh(r.slots)
      invariant r.Valid() && r.esize == 8 && accepted == r.Count() <= r.capacity
      invariant r.capacity == if ExactFlag(flags) then count else count - 1
      invariant ret != 0 ==> accepted == r.capacity
      decreases r.capacity - accepted, if ret == 0 then 1 else 0
    {
      ret := r.Enqueue(obj);
      if ret == 0 {
        accepted := accepted + 1;
      }
    }
  }

  lemma BufferLargeEnough(esize: nat, slotCount: nat, bytes: nat)
    requires esize % 4 == 0 && bytes >= RING_HEADER_LEN + slotCount * esize
    ensures 0 <= slotCount * Scale(esize) <= (bytes - RING_HEADER_LEN) / (if esize == 8 then 8 else 4)
  {
    var wordLen := if esize == 8 then 8 else 4;
    ScaleMeaning(esize);
    MulNonNegative(slotCount, Scale(esize));
    assert slotCount * esize == (slotCount * Scale(esize)) * wordLen;
  }

  // ----- the window of stored elements

  lemma CopyFits(n: nat, size: nat, scale: nat)
    requires n <= size && 2 * (size * scale) <= TWO_32 && 0 < n < size
    requires scale > 0
    ensures (size + n) * scale < TWO_32
  {
    MulGap(scale, n, size);
    assert (size + n) * scale == size * scale + n * scale;
  }

  /** What an enqueue copy does to the window of stored elements. */
  lemma EnqueuedContents(s: seq<Word>, size: nat, scale: nat, dequeued: nat, count: nat, obj: seq<Word>, n: nat)
    requires scale > 0 && 0 < size * scale <= |s| && size > 0 && count + n <= size && |obj| == n * scale
    ensures Reading(Written(s, size * scale, ((dequeued + count) % size) * scale, obj),
                    size * scale, (dequeued % size) * scale, Words(count + n, scale))
         == Reading(s, size * scale, (dequeued % size) * scale, Words(count, scale)) + obj
  {
    ElementSlot(dequeued, count, 0, size, scale);
    WordsAdd(count, n, scale);
    WordsOrder(count + n, size, scale);
    ReadAppend(s, size * scale, (dequeued % size) * scale, Words(count, scale), obj);
  }

  /** What advancing the consumer position does to the window of stored elements. */
  lemma DequeuedContents(s: seq<Word>, size: nat, scale: nat, dequeued: nat, n: nat, count: nat)
    requires scale > 0 && 0 < size * scale <= |s| && size > 0 && n <= count
    ensures Reading(s, size * scale, (dequeued % size) * scale, Words(count, scale))
         == Reading(s, size * scale, (dequeued % size) * scale, Words(n, scale))
          + Reading(s, size * scale, ((dequeued + n) % size) * scale, Words(count - n, scale))
  {
    ElementSlot(dequeued, n, 0, size, scale);
    WordsAdd(n, count - n, scale);
    ReadSplit(s, size * scale, (dequeued % size) * scale, Words(n, scale), Words(count, scale));
  }

  /** The length in words of count elements. */
  function Words(count: nat, scale: nat): nat {
    MulNonNegative(count, scale);
    count * scale
  }

  lemma WordsOrder(a: nat, b: nat, scale: nat)
    requires a <= b
    ensures Words(a, scale) <= Words(b, scale)
  {
    MulNonNegative(scale, b - a);
    assert Words(b, scale) == Words(a, scale) + Words(b - a, scale);
  }

  lemma WordsAdd(a: nat, b: nat, scale: nat)
    ensures Words(a + b, scale) == Words(a, scale) + Words(b, scale)
  {
  }
}
