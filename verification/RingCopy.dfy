/**
 The copy routines of ring.c: unrolled, wrap-splitting loops between an object
 table and the ring's slots. They are specified by the one-word-at-a-time loop
 over slots taken modulo the ring size.
 */
module RingCopy {
  import opened Bits

  /** One copied machine word: 64 bits wide for 8-byte elements, 32 bits otherwise. Copies never look inside. */
  type Word = nat

  /** Words per element in the copy routines: 8-byte elements move as single 64-bit words. */
  function Scale(esize: nat): nat {
    if esize == 8 then 1 else esize / 4
  }

  /** The words of an element are its bytes: eight to a word for pointer-sized elements, four otherwise. */
  lemma ScaleMeaning(esize: nat)
    requires esize % 4 == 0
    ensures Scale(esize) * (if esize == 8 then 8 else 4) == esize
  {
  }

  /** The slot of the i-th word counted from start. */
  function Slot(start: nat, i: nat, size: nat): (j: nat)
    requires size > 0
    ensures j < size
  {
    (start + i) % size
  }

  /** The simple loop: slot (start + i) % size receives obj[i], in order. */
  ghost function SimpleLoop(s: seq<Word>, size: nat, start: nat, obj: seq<Word>): (r: seq<Word>)
    requires 0 < size <= |s|
    ensures |r| == |s|
    decreases |obj|
  {
    if obj == [] then s
    else
      var k := |obj| - 1;
      SimpleLoop(s, size, start, obj[..k])[Slot(start, k, size) := obj[k]]
  }

  /** How many slots after start slot j comes, going round. */
  function Offset(j: nat, start: nat, size: nat): (i: nat)
    requires size > 0
    ensures i < size
  {
    (j - start) % size
  }

  /** The slots after at most one lap of writing obj from start, slot by slot. */
  ghost function Written(s: seq<Word>, size: nat, start: nat, obj: seq<Word>): (r: seq<Word>)
    requires 0 < size <= |s|
    ensures |r| == |s|
  {
    seq(|s|, j requires 0 <= j < |s| =>
      if j < size && Offset(j, start, size) < |obj| then obj[Offset(j, start, size)] else s[j])
  }

  /** The simple loop read back: word i comes from slot (start + i) % size. */
  ghost function Reading(s: seq<Word>, size: nat, start: nat, n: nat): (r: seq<Word>)
    requires 0 < size <= |s|
    ensures |r| == n
  {
    seq(n, i requires i >= 0 => s[Slot(start, i, size)])
  }

  /** Positions less than a whole ring apart never share a slot. */
  lemma SlotsDiffer(p: int, q: int, size: nat)
    requires size > 0 && p < q < p + size
    ensures p % size != q % size
  {
    assert p == size * (p / size) + p % size;
    assert q == size * (q / size) + q % size;
    if p % size == q % size {
      MulSub(size, q / size, p / size);
      DivisionGap(size, q / size - p / size, q - p);
    }
  }

  lemma SlotOnce(p: nat, size: nat)
    requires p < 2 * size
    ensures p % size == if p < size then p else p - size
  {
    DivModUnique(p, size, if p < size then 0 else 1, if p < size then p else p - size);
  }

  /** Offset undoes Slot within one lap. */
  lemma SlotOffset(start: nat, i: nat, size: nat)
    requires i < size
    ensures Offset(Slot(start, i, size), start, size) == i
  {
    var j := Slot(start, i, size);
    assert start + i == size * ((start + i) / size) + j;
    var q := (start + i) / size;
    MulSub(size, 0, q);
    DivModUnique(j - start, size, -q, i);
  }

  lemma OffsetSlot(j: nat, start: nat, size: nat)
    requires j < size
    ensures Slot(start, Offset(j, start, size), size) == j
  {
    var i, q := Offset(j, start, size), (j - start) / size;
    assert j - start == size * q + i;
    MulSub(size, 0, q);
    DivModUnique(start + i, size, -q, j);
  }

  lemma WrittenSnoc(s: seq<Word>, size: nat, start: nat, obj: seq<Word>, i: nat)
    requires 0 < size <= |s| && i < |obj| && i < size
    ensures Written(s, size, start, obj[..i + 1]) == Written(s, size, start, obj[..i])[Slot(start, i, size) := obj[i]]
  {
    SlotOffset(start, i, size);
    forall j | 0 <= j < size && Offset(j, start, size) == i ensures j == Slot(start, i, size) {
      OffsetSlot(j, start, size);
    }
  }

  /** The closed form is what the simple loop leaves behind. */
  lemma {:induction false} WrittenIsSimpleLoop(s: seq<Word>, size: nat, start: nat, obj: seq<Word>)
    requires 0 < size <= |s| && |obj| <= size
    ensures Written(s, size, start, obj) == SimpleLoop(s, size, start, obj)
    decreases |obj|
  {
    if obj == [] {
    } else {
      var k := |obj| - 1;
      WrittenIsSimpleLoop(s, size, start, obj[..k]);
      WrittenSnoc(s, size, start, obj, k);
      assert obj[..k + 1] == obj;
    }
  }

  /** A write of at most one lap lands each word on its own slot and touches no other slot. */
  lemma WrittenAt(s: seq<Word>, size: nat, start: nat, obj: seq<Word>)
    requires 0 < size <= |s| && |obj| <= size
    ensures forall i :: 0 <= i < |obj| ==> Written(s, size, start, obj)[Slot(start, i, size)] == obj[i]
    ensures forall j :: 0 <= j < |s| && (forall i :: 0 <= i < |obj| ==> Slot(start, i, size) != j)
                        ==> Written(s, size, start, obj)[j] == s[j]
  {
    forall i | 0 <= i < |obj| ensures Written(s, size, start, obj)[Slot(start, i, size)] == obj[i] {
      SlotOffset(start, i, size);
    }
    forall j | 0 <= j < size ensures Slot(start, Offset(j, start, size), size) == j {
      OffsetSlot(j, start, size);
    }
  }

  /** The dequeue copy inverts the enqueue copy. */
  lemma ReadBack(s: seq<Word>, size: nat, start: nat, obj: seq<Word>)
    requires 0 < size <= |s| && |obj| <= size
    ensures Reading(Written(s, size, start, obj), size, start, |obj|) == obj
  {
    WrittenAt(s, size, start, obj);
  }

  /** Splitting a count by the mask of the unrolling factor: whole turns, and what is left over. */
  lemma UnrolledCount(n: nat, k: nat)
    ensures AndNot(n, Pow2(k) - 1) + And(n, Pow2(k) - 1) == n
    ensures AndNot(n, Pow2(k) - 1) % Pow2(k) == 0 && And(n, Pow2(k) - 1) < Pow2(k)
    ensures Pow2(2) == 4 && Pow2(3) == 8
  {
    LowMask(n, k);
    assert Pow2(2) == 4;
    assert Pow2(3) == 8;
    WholePart(n, Pow2(k));
  }

  lemma WholePart(n: nat, p: nat)
    requires p > 0
    ensures (n - n % p) % p == 0 && n % p < p
  {
    assert n - n % p == p * (n / p) + 0;
    DivModUnique(n - n % p, p, n / p, 0);
  }

  /** A turn that starts before the end of the whole turns fits before it. */
  lemma NextTurn(i: nat, whole: nat, k: nat)
    requires 0 < k && i < whole && i % k == 0 && whole % k == 0
    ensures i + k <= whole && (i + k) % k == 0
  {
    var a, b := i / k, whole / k;
    assert i == k * a && whole == k * b;
    MulOrder(k, a, b);
    MulGap(k, a, b);
    DivModUnique(i + k, k, a + 1, 0);
  }

  /** head & mask is the head modulo the size, for every head. */
  lemma MaskedIndex(head: nat, size: nat)
    requires IsPow2(size)
    ensures And(head, size - 1) == head % size
  {
    var k: nat :| size == Pow2(k);
    LowMask(head, k);
  }

  /** Before the end of the ring a word's slot is its offset from the start. */
  lemma SlotsInside(start: nat, i: nat, n: nat, size: nat)
    requires start + i + n <= size
    ensures forall j :: i <= j < i + n ==> Slot(start, j, size) == start + j
  {
    forall j | i <= j < i + n ensures Slot(start, j, size) == start + j {
      SlotOnce(start + j, size);
    }
  }

  // ----- enqueue: object table to ring

  /** One store ring[idx] = obj[i] of an unrolled body. */
  method StoreNext(ring: array<Word>, size: nat, ghost start: nat, obj: seq<Word>, i: nat, idx: nat,
      ghost was: seq<Word>)
    requires i < |obj| && i < size <= ring.Length == |was| && idx == Slot(start, i, size)
    requires ring[..] == Written(was, size, start, obj[..i])
    modifies ring
    ensures ring[..] == Written(was, size, start, obj[..i + 1])
  {
    WrittenSnoc(was, size, start, obj, i);
    ring[idx] := obj[i];
  }

  /** Four consecutive stores of an unrolled body. */
  method StoreFour(ring: array<Word>, size: nat, start: nat, obj: seq<Word>, i: nat, ghost was: seq<Word>)
    requires start + i + 4 <= size <= ring.Length && 0 < size && i + 4 <= |obj| && ring.Length == |was|
    requires ring[..] == Written(was, size, start, obj[..i])
    modifies ring
    ensures ring[..] == Written(was, size, start, obj[..i + 4])
  {
    SlotsInside(start, i, 4, size);
    StoreNext(ring, size, start, obj, i, start + i, was);
    StoreNext(ring, size, start, obj, i + 1, start + i + 1, was);
    StoreNext(ring, size, start, obj, i + 2, start + i + 2, was);
    StoreNext(ring, size, start, obj, i + 3, start + i + 3, was);
  }

  method StoreEight(ring: array<Word>, size: nat, start: nat, obj: seq<Word>, i: nat, ghost was: seq<Word>)
    requires start + i + 8 <= size <= ring.Length && 0 < size && i + 8 <= |obj| && ring.Length == |was|
    requires ring[..] == Written(was, size, start, obj[..i])
    modifies ring
    ensures ring[..] == Written(was, size, start, obj[..i + 8])
  {
    StoreFour(ring, size, start, obj, i, was);
    StoreFour(ring, size, start, obj, i + 4, was);
  }

  /** The fall-through switch over the last three or fewer words. */
  method StoreLastThree(ring: array<Word>, size: nat, start: nat, obj: seq<Word>, first: nat, rest: nat,
      ghost was: seq<Word>)
    requires start + first + rest <= size <= ring.Length && 0 < size && first + rest <= |obj| && ring.Length == |was|
    requires ring[..] == Written(was, size, start, obj[..first])
    requires rest <= 3
    modifies ring
    ensures ring[..] == Written(was, size, start, obj[..first + rest])
  {
    SlotsInside(start, first, rest, size);
    var i := first;
    if rest >= 3 { StoreNext(ring, size, start, obj, i, start + i, was); i := i + 1; }
    if rest >= 2 { StoreNext(ring, size, start, obj, i, start + i, was); i := i + 1; }
    if rest >= 1 { StoreNext(ring, size, start, obj, i, start + i, was); i := i + 1; }
  }

  /** The same switch for seven or fewer words. */
  method StoreLastSeven(ring: array<Word>, size: nat, start: nat, obj: seq<Word>, first: nat, rest: nat,
      ghost was: seq<Word>)
    requires start + first + rest <= size <= ring.Length && 0 < size && first + rest <= |obj| && ring.Length == |was|
    requires ring[..] == Written(was, size, start, obj[..first])
    requires rest <= 7
    modifies ring
    ensures ring[..] == Written(was, size, start, obj[..first + rest])
  {
    SlotsInside(start, first, rest, size);
    var i := first;
    if rest >= 7 { StoreNext(ring, size, start, obj, i, start + i, was); i := i + 1; }
    if rest >= 6 { StoreNext(ring, size, start, obj, i, start + i, was); i := i + 1; }
    if rest >= 5 { StoreNext(ring, size, start, obj, i, start + i, was); i := i + 1; }
    if rest >= 4 { StoreNext(ring, size, start, obj, i, start + i, was); i := i + 1; }
    StoreLastThree(ring, size, start, obj, i, first + rest - i, was);
  }

  /** The non-wrapping case of the 64-bit enqueue copy: four stores a turn, then the rest. */
  method StoreUnrolled4(ring: array<Word>, size: nat, start: nat, obj: seq<Word>, n: nat)
    requires start < size && start + n <= size <= ring.Length && n <= |obj|
    modifies ring
    ensures ring[..] == Written(old(ring[..]), size, start, obj[..n])
  {
    ghost var was := ring[..];
    assert obj[..0] == [];
    var whole, rest := AndNot(n, 3), And(n, 3);
    UnrolledCount(n, 2);
    var i := 0;
    while i < whole
      invariant i <= whole && i % 4 == 0
      invariant ring[..] == Written(was, size, start, obj[..i])
    {
      NextTurn(i, whole, 4);
      StoreFour(ring, size, start, obj, i, was);
      i := i + 4;
    }
    StoreLastThree(ring, size, start, obj, i, rest, was);
  }

  /** The non-wrapping case of the 32-bit enqueue copy: eight stores a turn, then the rest. */
  method StoreUnrolled8(ring: array<Word>, size: nat, start: nat, obj: seq<Word>, n: nat)
    requires start < size && start + n <= size <= ring.Length && n <= |obj|
    modifies ring
    ensures ring[..] == Written(old(ring[..]), size, start, obj[..n])
  {
    ghost var was := ring[..];
    assert obj[..0] == [];
    var whole, rest := AndNot(n, 7), And(n, 7);
    UnrolledCount(n, 3);
    var i := 0;
    while i < whole
      invariant i <= whole && i % 8 == 0
      invariant ring[..] == Written(was, size, start, obj[..i])
    {
      NextTurn(i, whole, 8);
      StoreEight(ring, size, start, obj, i, was);
      i := i + 8;
    }
    StoreLastSeven(ring, size, start, obj, i, rest, was);
  }

  /** The wrapping case: to the end of the ring, then on from slot zero. */
  method StoreWrapped(ring: array<Word>, size: nat, start: nat, obj: seq<Word>, n: nat)
    requires start < size <= ring.Length && size < start + n && n <= size && n <= |obj|
    modifies ring
    ensures ring[..] == Written(old(ring[..]), size, start, obj[..n])
  {
    ghost var was := ring[..];
    var i, idx := 0, start;
    assert obj[..0] == [];
    while idx < size
      invariant start <= idx == start + i <= size
      invariant ring[..] == Written(was, size, start, obj[..i])
    {
      SlotOnce(idx, size);
      StoreNext(ring, size, start, obj, i, idx, was);
      i, idx := i + 1, idx + 1;
    }
    idx := 0;
    while i < n
      invariant i <= n && idx == start + i - size
      invariant ring[..] == Written(was, size, start, obj[..i])
    {
      SlotOnce(start + i, size);
      StoreNext(ring, size, start, obj, i, idx, was);
      i, idx := i + 1, idx + 1;
    }
  }

  method StoreWords4(ring: array<Word>, size: nat, idx: nat, obj: seq<Word>, n: nat)
    requires idx < size <= ring.Length && n <= size && n <= |obj|
    requires idx + n < TWO_32
    modifies ring
    ensures ring[..] == Written(old(ring[..]), size, idx, obj[..n])
  {
    if Word32(idx + n) <= size {
      StoreUnrolled4(ring, size, idx, obj, n);
    } else {
      StoreWrapped(ring, size, idx, obj, n);
    }
  }

  method EnqueueElems64(ring: array<Word>, size: nat, mask: nat, prodHead: nat, obj: seq<Word>, n: nat)
    requires IsPow2(size) && mask == size - 1 && size <= ring.Length
    requires prodHead % size + n < TWO_32
    requires n <= size && n <= |obj|
    modifies ring
    ensures ring[..] == Written(old(ring[..]), size, prodHead % size, obj[..n])
  {
    MaskedIndex(prodHead, size);
    StoreWords4(ring, size, And(prodHead, mask), obj, n);
  }

  /** Here size, idx and n count 32-bit words. */
  method EnqueueElems32(ring: array<Word>, size: nat, idx: nat, obj: seq<Word>, n: nat)
    requires idx < size <= ring.Length && n <= size && n <= |obj|
    requires idx + n < TWO_32
    modifies ring
    ensures ring[..] == Written(old(ring[..]), size, idx, obj[..n])
  {
    if Word32(idx + n) <= size {
      StoreUnrolled8(ring, size, idx, obj, n);
    } else {
      StoreWrapped(ring, size, idx, obj, n);
    }
  }

  // ----- dequeue: ring to object table

  lemma ReadingSnoc(s: seq<Word>, size: nat, start: nat, i: nat)
    requires 0 < size <= |s|
    ensures Reading(s, size, start, i + 1) == Reading(s, size, start, i) + [s[Slot(start, i, size)]]
  {
  }

  /** One load obj[i] = ring[idx] of an unrolled body. */
  method LoadNext(ring: array<Word>, size: nat, ghost start: nat, obj: array<Word>, i: nat, idx: nat,
      ghost was: seq<Word>)
    requires i < obj.Length == |was| && 0 < size <= ring.Length && idx == Slot(start, i, size) && obj != ring
    requires obj[..] == Reading(ring[..], size, start, i) + was[i..]
    modifies obj
    ensures obj[..] == Reading(ring[..], size, start, i + 1) + was[i + 1..]
  {
    ReadingSnoc(ring[..], size, start, i);
    obj[i] := ring[idx];
  }

  /** Four consecutive loads of an unrolled body. */
  method LoadFour(ring: array<Word>, size: nat, start: nat, obj: array<Word>, i: nat, ghost was: seq<Word>)
    requires start + i + 4 <= size <= ring.Length && 0 < size && i + 4 <= obj.Length == |was| && obj != ring
    requires obj[..] == Reading(ring[..], size, start, i) + was[i..]
    modifies obj
    ensures obj[..] == Reading(ring[..], size, start, i + 4) + was[i + 4..]
  {
    SlotsInside(start, i, 4, size);
    LoadNext(ring, size, start, obj, i, start + i, was);
    LoadNext(ring, size, start, obj, i + 1, start + i + 1, was);
    LoadNext(ring, size, start, obj, i + 2, start + i + 2, was);
    LoadNext(ring, size, start, obj, i + 3, start + i + 3, was);
  }

  method LoadEight(ring: array<Word>, size: nat, start: nat, obj: array<Word>, i: nat, ghost was: seq<Word>)
    requires start + i + 8 <= size <= ring.Length && 0 < size && i + 8 <= obj.Length == |was| && obj != ring
    requires obj[..] == Reading(ring[..], size, start, i) + was[i..]
    modifies obj
    ensures obj[..] == Reading(ring[..], size, start, i + 8) + was[i + 8..]
  {
    LoadFour(ring, size, start, obj, i, was);
    LoadFour(ring, size, start, obj, i + 4, was);
  }

  /** The fall-through switch over the last three or fewer words. */
  method LoadLastThree(ring: array<Word>, size: nat, start: nat, obj: array<Word>, first: nat, rest: nat,
      ghost was: seq<Word>)
    requires start + first + rest <= size <= ring.Length && 0 < size && first + rest <= obj.Length == |was| &&
        obj != ring
    requires obj[..] == Reading(ring[..], size, start, first) + was[first..]
    requires rest <= 3
    modifies obj
    ensures obj[..] == Reading(ring[..], size, start, first + rest) + was[first + rest..]
  {
    SlotsInside(start, first, rest, size);
    var i := first;
    if rest >= 3 { LoadNext(ring, size, start, obj, i, start + i, was); i := i + 1; }
    if rest >= 2 { LoadNext(ring, size, start, obj, i, start + i, was); i := i + 1; }
    if rest >= 1 { LoadNext(ring, size, start, obj, i, start + i, was); i := i + 1; }
  }

  /** The same switch for seven or fewer words. */
  method LoadLastSeven(ring: array<Word>, size: nat, start: nat, obj: array<Word>, first: nat, rest: nat,
      ghost was: seq<Word>)
    requires start + first + rest <= size <= ring.Length && 0 < size && first + rest <= obj.Length == |was| &&
        obj != ring
    requires obj[..] == Reading(ring[..], size, start, first) + was[first..]
    requires rest <= 7
    modifies obj
    ensures obj[..] == Reading(ring[..], size, start, first + rest) + was[first + rest..]
  {
    SlotsInside(start, first, rest, size);
    var i := first;
    if rest >= 7 { LoadNext(ring, size, start, obj, i, start + i, was); i := i + 1; }
    if rest >= 6 { LoadNext(ring, size, start, obj, i, start + i, was); i := i + 1; }
    if rest >= 5 { LoadNext(ring, size, start, obj, i, start + i, was); i := i + 1; }
    if rest >= 4 { LoadNext(ring, size, start, obj, i, start + i, was); i := i + 1; }
    LoadLastThree(ring, size, start, obj, i, first + rest - i, was);
  }

  /** The non-wrapping case of the 64-bit dequeue copy: four loads a turn, then the rest. */
  method LoadUnrolled4(ring: array<Word>, size: nat, start: nat, obj: array<Word>, n: nat)
    requires start < size && start + n <= size <= ring.Length && n <= obj.Length && obj != ring
    modifies obj
    ensures obj[..] == Reading(ring[..], size, start, n) + old(obj[..])[n..]
  {
    ghost var was := obj[..];
    ghost var slots := ring[..];
    assert Reading(slots, size, start, 0) + was[0..] == was;
    var whole, rest := AndNot(n, 3), And(n, 3);
    UnrolledCount(n, 2);
    var i := 0;
    while i < whole
      invariant i <= whole && i % 4 == 0
      invariant ring[..] == slots && obj[..] == Reading(slots, size, start, i) + was[i..]
    {
      NextTurn(i, whole, 4);
      LoadFour(ring, size, start, obj, i, was);
      i := i + 4;
    }
    LoadLastThree(ring, size, start, obj, i, rest, was);
  }

  /** The non-wrapping case of the 32-bit dequeue copy: eight loads a turn, then the rest. */
  method LoadUnrolled8(ring: array<Word>, size: nat, start: nat, obj: array<Word>, n: nat)
    requires start < size && start + n <= size <= ring.Length && n <= obj.Length && obj != ring
    modifies obj
    ensures obj[..] == Reading(ring[..], size, start, n) + old(obj[..])[n..]
  {
    ghost var was := obj[..];
    ghost var slots := ring[..];
    assert Reading(slots, size, start, 0) + was[0..] == was;
    var whole, rest := AndNot(n, 7), And(n, 7);
    UnrolledCount(n, 3);
    var i := 0;
    while i < whole
      invariant i <= whole && i % 8 == 0
      invariant ring[..] == slots && obj[..] == Reading(slots, size, start, i) + was[i..]
    {
      NextTurn(i, whole, 8);
      LoadEight(ring, size, start, obj, i, was);
      i := i + 8;
    }
    LoadLastSeven(ring, size, start, obj, i, rest, was);
  }

  /** The wrapping case of the dequeue copies. */
  method LoadWrapped(ring: array<Word>, size: nat, start: nat, obj: array<Word>, n: nat)
    requires start < size <= ring.Length && size < start + n && n <= size && n <= obj.Length && obj != ring
    modifies obj
    ensures obj[..] == Reading(ring[..], size, start, n) + old(obj[..])[n..]
  {
    ghost var was := obj[..];
    var i, idx := 0, start;
    assert Reading(ring[..], size, start, 0) == [];
    while idx < size
      invariant start <= idx == start + i <= size
      invariant obj[..] == Reading(ring[..], size, start, i) + was[i..]
    {
      SlotOnce(idx, size);
      LoadNext(ring, size, start, obj, i, idx, was);
      i, idx := i + 1, idx + 1;
    }
    idx := 0;
    while i < n
      invariant i <= n && idx == start + i - size
      invariant obj[..] == Reading(ring[..], size, start, i) + was[i..]
    {
      SlotOnce(start + i, size);
      LoadNext(ring, size, start, obj, i, idx, was);
      i, idx := i + 1, idx + 1;
    }
  }

  method LoadWords4(ring: array<Word>, size: nat, idx: nat, obj: array<Word>, n: nat)
    requires idx < size <= ring.Length && n <= size && n <= obj.Length && obj != ring
    requires idx + n < TWO_32
    modifies obj
    ensures obj[..] == Reading(ring[..], size, idx, n) + old(obj[..])[n..]
  {
    if Word32(idx + n) <= size {
      LoadUnrolled4(ring, size, idx, obj, n);
    } else {
      LoadWrapped(ring, size, idx, obj, n);
    }
  }

  method DequeueElems64(ring: array<Word>, size: nat, mask: nat, consHead: nat, obj: array<Word>, n: nat)
    requires IsPow2(size) && mask == size - 1 && size <= ring.Length
    requires consHead % size + n < TWO_32
    requires n <= size && n <= obj.Length && obj != ring
    modifies obj
    ensures obj[..] == Reading(ring[..], size, consHead % size, n) + old(obj[..])[n..]
  {
    MaskedIndex(consHead, size);
    LoadWords4(ring, size, And(consHead, mask), obj, n);
  }

  method DequeueElems32(ring: array<Word>, size: nat, idx: nat, obj: array<Word>, n: nat)
    requires idx < size <= ring.Length && n <= size && n <= obj.Length && obj != ring
    requires idx + n < TWO_32
    modifies obj
    ensures obj[..] == Reading(ring[..], size, idx, n) + old(obj[..])[n..]
  {
    if Word32(idx + n) <= size {
      LoadUnrolled8(ring, size, idx, obj, n);
    } else {
      LoadWrapped(ring, size, idx, obj, n);
    }
  }

  // ----- elements of several words

  /** Word w of the element i places after position head sits in the slot group of that element. */
  lemma ElementSlot(head: nat, i: nat, w: nat, size: nat, scale: nat)
    requires size > 0 && w < scale
    ensures size * scale > 0
    ensures Slot((head % size) * scale, i * scale + w, size * scale) == ((head + i) % size) * scale + w
  {
    MulGap(scale, 0, size);
    var q, e := (head % size + i) / size, (head % size + i) % size;
    ModOfSum(head, i, size);
    assert head % size + i == size * q + e;
    var whole, part := (size * scale) * q, e * scale + w;
    assert (head % size) * scale + i * scale == (size * q + e) * scale;
    assert (size * q + e) * scale == whole + e * scale by { ScaleOut(size, q, e, scale); }
    MulGap(scale, e, size);
    DivModUnique(whole + part, size * scale, q, part);
  }

  lemma ScaleOut(size: nat, q: nat, e: nat, scale: nat)
    ensures (size * q + e) * scale == (size * scale) * q + e * scale
  {
  }

  lemma ModOfSum(head: nat, i: nat, size: nat)
    requires size > 0
    ensures (head % size + i) % size == (head + i) % size
  {
    var a, b := head / size, (head % size + i) / size;
    assert head == size * a + head % size;
    assert head % size + i == size * b + (head % size + i) % size;
    MulSub(size, a, -b);
    DivModUnique(head + i, size, a + b, (head % size + i) % size);
  }

  /** Scaled index and count of a copy stay below the scaled size and within a 32-bit word. */
  lemma ScaledRange(idx: nat, num: nat, size: nat, scale: nat)
    requires idx < size && num <= size && scale > 0 && (size + num) * scale < TWO_32
    ensures 0 <= idx * scale < size * scale < TWO_32
    ensures 0 <= num * scale <= size * scale && idx * scale + num * scale < TWO_32
  {
    MulOrder(scale, idx, size);
    MulOrder(scale, num, size);
    MulNonNegative(scale, idx);
    MulNonNegative(scale, num);
    assert (size + num) * scale == size * scale + num * scale;
  }

  lemma ScaledWords(idx: nat, num: nat, size: nat, scale: nat)
    requires idx < size && num <= size && scale > 0 && (size + num) * scale < TWO_32
    ensures Word32(idx * scale) == idx * scale && Word32(num * scale) == num * scale
    ensures Word32(size * scale) == size * scale
    ensures 0 <= idx * scale < size * scale && 0 <= num * scale <= size * scale
    ensures idx * scale + num * scale < TWO_32
  {
    ScaledRange(idx, num, size, scale);
  }

  /** The enqueue copy of num elements of scale 32-bit words each. */
  method EnqueueElemsScaled(ring: array<Word>, size: nat, mask: nat, prodHead: nat, obj: seq<Word>, scale: nat,
      num: nat)
    requires IsPow2(size) && mask == size - 1 && num <= size
    requires scale > 0 && (size + num) * scale < TWO_32
    requires 0 < size * scale <= ring.Length && |obj| == num * scale
    modifies ring
    ensures ring[..] == Written(old(ring[..]), size * scale, (prodHead % size) * scale, obj)
  {
    MaskedIndex(prodHead, size);
    ScaledWords(prodHead % size, num, size, scale);
    var nrNum := Word32(num * scale);
    var idx := And(prodHead, mask);
    var nrIdx := Word32(idx * scale);
    var nrSize := Word32(size * scale);
    assert obj[..nrNum] == obj;
    EnqueueElems32(ring, nrSize, nrIdx, obj, nrNum);
  }

  /** The enqueue copy of num elements, dispatched on the element size. */
  method EnqueueElems(ring: array<Word>, size: nat, mask: nat, prodHead: nat, obj: seq<Word>, esize: nat, num: nat)
    requires IsPow2(size) && mask == size - 1 && num <= size
    requires Scale(esize) > 0 && (size + num) * Scale(esize) < TWO_32
    requires 0 < size * Scale(esize) <= ring.Length && |obj| == num * Scale(esize)
    modifies ring
    ensures ring[..] == Written(old(ring[..]), size * Scale(esize), (prodHead % size) * Scale(esize), obj)
  {
    if esize == 8 {
      assert obj[..num] == obj;
      EnqueueElems64(ring, size, mask, prodHead, obj, num);
    } else {
      EnqueueElemsScaled(ring, size, mask, prodHead, obj, esize / 4, num);
    }
  }

  /** The dequeue copy of num elements of scale 32-bit words each. */
  method DequeueElemsScaled(ring: array<Word>, size: nat, mask: nat, consHead: nat, obj: array<Word>, scale: nat,
      num: nat)
    requires IsPow2(size) && mask == size - 1 && num <= size
    requires scale > 0 && (size + num) * scale < TWO_32
    requires 0 < size * scale <= ring.Length && 0 <= num * scale <= obj.Length && obj != ring
    modifies obj
    ensures obj[..] == Reading(ring[..], size * scale, (consHead % size) * scale, num * scale)
                       + old(obj[..])[num * scale..]
  {
    MaskedIndex(consHead, size);
    ScaledWords(consHead % size, num, size, scale);
    var nrNum := Word32(num * scale);
    var idx := And(consHead, mask);
    var nrIdx := Word32(idx * scale);
    var nrSize := Word32(size * scale);
    DequeueElems32(ring, nrSize, nrIdx, obj, nrNum);
  }

  /** The dequeue copy of num elements, dispatched on the element size. */
  method DequeueElems(ring: array<Word>, size: nat, mask: nat, consHead: nat, obj: array<Word>, esize: nat, num: nat)
    requires IsPow2(size) && mask == size - 1 && num <= size
    requires Scale(esize) > 0 && (size + num) * Scale(esize) < TWO_32
    requires 0 < size * Scale(esize) <= ring.Length && 0 <= num * Scale(esize) <= obj.Length && obj != ring
    modifies obj
    ensures obj[..] == Reading(ring[..], size * Scale(esize), (consHead % size) * Scale(esize), num * Scale(esize))
                       + old(obj[..])[num * Scale(esize)..]
  {
    if esize == 8 {
      DequeueElems64(ring, size, mask, consHead, obj, num);
    } else {
      DequeueElemsScaled(ring, size, mask, consHead, obj, esize / 4, num);
    }
  }

  lemma ElementBounds(i: nat, w: nat, n: nat, scale: nat)
    requires w < scale
    ensures 0 <= i * scale
    ensures i < n <==> i * scale + w < n * scale
  {
    MulNonNegative(scale, i);
    if i < n {
      MulGap(scale, i, n);
    } else {
      MulOrder(scale, n, i);
    }
  }

  /**
   The enqueue copy of num elements puts word w of the i-th element into the slot group of position
   head + i, so no element is torn across groups, and leaves the groups of the other positions alone.
   */
  lemma ElementPlaced(s: seq<Word>, size: nat, scale: nat, head: nat, obj: seq<Word>, num: nat, i: nat, w: nat)
    requires 0 < size * scale <= |s| && num <= size && |obj| == num * scale
    requires i < size && w < scale
    ensures i < num <==> 0 <= i * scale + w < |obj|
    ensures 0 <= ((head + i) % size) * scale + w < size * scale
    ensures Written(s, size * scale, (head % size) * scale, obj)[((head + i) % size) * scale + w]
              == if i < num then obj[i * scale + w] else s[((head + i) % size) * scale + w]
  {
    ElementSlot(head, i, w, size, scale);
    ElementBounds(i, w, num, scale);
    ElementBounds(i, w, size, scale);
    SlotOffset((head % size) * scale, i * scale + w, size * scale);
  }

  // ----- a window of slots as a queue

  lemma SlotSlot(start: nat, c: nat, d: nat, size: nat)
    requires size > 0
    ensures Slot(Slot(start, c, size), d, size) == Slot(start, c + d, size)
  {
    ModOfSum(start + c, d, size);
  }

  lemma SlotLap(start: nat, i: nat, size: nat)
    requires size > 0
    ensures Slot(start, i + size, size) == Slot(start, i, size)
  {
    var q := (start + i) / size;
    assert start + i == size * q + Slot(start, i, size);
    DivModUnique(start + i + size, size, q + 1, Slot(start, i, size));
  }

  /** Writing behind a window extends what is read from its start. */
  lemma ReadAppend(s: seq<Word>, size: nat, start: nat, c: nat, obj: seq<Word>)
    requires 0 < size <= |s| && c + |obj| <= size
    ensures Reading(Written(s, size, Slot(start, c, size), obj), size, start, c + |obj|)
         == Reading(s, size, start, c) + obj
  {
    var mid := Slot(start, c, size);
    forall i | 0 <= i < c
      ensures Written(s, size, mid, obj)[Slot(start, i, size)] == s[Slot(start, i, size)]
    {
      SlotLap(start, i, size);
      SlotSlot(start, c, i + size - c, size);
      SlotOffset(mid, i + size - c, size);
    }
    forall i | c <= i < c + |obj|
      ensures Written(s, size, mid, obj)[Slot(start, i, size)] == obj[i - c]
    {
      SlotSlot(start, c, i - c, size);
      SlotOffset(mid, i - c, size);
    }
  }

  /** Reading in two goes. */
  lemma ReadSplit(s: seq<Word>, size: nat, start: nat, n: nat, c: nat)
    requires 0 < size <= |s| && n <= c
    ensures Reading(s, size, start, c) == Reading(s, size, start, n) + Reading(s, size, Slot(start, n, size), c - n)
  {
    forall i | n <= i < c
      ensures Reading(s, size, start, c)[i] == Reading(s, size, Slot(start, n, size), c - n)[i - n]
    {
      SlotSlot(start, n, i - n, size);
    }
  }
}
