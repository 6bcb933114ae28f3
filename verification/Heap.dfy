/** The element layer of the allocator: inserting, allocating and freeing elements of a heap. */
module Heap {
  import opened Bits
  import opened SizeClass
  import opened Blocks
  import opened Elements
  import opened FreeLists

  class Heap {
    /** sizeof(struct malloc_elem) */
    const headerLen: nat
    /** The address space; an address is an index. */
    const mem: array<Byte>
    var first: Elem?
    var last: Elem?
    var freeHead: seq<seq<Elem>>
    var allocCount: nat
    var totalSize: nat

    /** The elements from first to last. */
    ghost var elems: seq<Elem>

    /** A heap without elements, its memory taken as zeroed. */
    constructor (headerLen: nat, mem: array<Byte>, len: nat)
      ensures this.headerLen == headerLen && this.mem == mem && totalSize == len && allocCount == 0
      ensures first == null && last == null && elems == []
      ensures |freeHead| == RTE_HEAP_NUM_FREELISTS && forall b :: 0 <= b < |freeHead| ==> freeHead[b] == []
    {
      this.headerLen, this.mem, totalSize, allocCount := headerLen, mem, len, 0;
      first, last, elems := null, null, [];
      freeHead := seq(RTE_HEAP_NUM_FREELISTS, _ => []);
    }

    ghost function View(): (v: seq<Block>)
      reads `elems, elems`size, elems`state
      ensures |v| == |elems|
    {
      ViewOf(elems)
    }

    ghost predicate ListOk()
      reads `first, `last, `elems, elems
    {
      && 0 < headerLen && mem.Length < TWO_64
      && Ends(first, last, elems) && NextLinked(elems) && PrevLinked(elems)
      && Ordered(View(), headerLen, mem.Length)
    }

    ghost predicate Valid()
      reads `first, `last, `elems, `freeHead, elems
    {
      ListOk() && Indexed(freeHead, elems, View(), {})
    }

    lemma {:induction false} ElemsDistinct()
      requires ListOk()
      ensures Distinct(elems)
      ensures forall i, j :: 0 <= i < j < |elems| ==> elems[i].addr < elems[j].addr
    {
      OrderedDistinct(elems, headerLen, mem.Length);
    }

    lemma {:induction false} ElemInside(elem: Elem, k: nat)
      requires ListOk() && k < |elems| && elems[k] == elem
      ensures headerLen <= elem.size && elem.addr + elem.size <= mem.Length
    {
      assert View()[k] == BlockOf(elem);
    }

    // ----- free lists

    /** malloc_elem_free_list_insert */
    method FreeListInsert(elem: Elem, ghost k: nat, ghost w: seq<Block>)
      requires k < |elems| && elems[k] == elem && Distinct(elems)
      requires Indexed(freeHead, elems, View(), {elem}) && w == View()[k := View()[k].(busy := false)]
      modifies this`freeHead, elem`state
      ensures elem.state == ElemFree
      ensures freeHead == PushFront(old(freeHead), FreeListIndex(elem.size), elem)
      ensures HeadOf(old(freeHead), freeHead, FreeListIndex(elem.size), elem)
      ensures View() == w
      ensures Indexed(freeHead, elems, w, {})
    {
      var idx := FreeListIndex(elem.size);
      ghost var v := View();
      elem.state := ElemFree;
      ChangedView(elems, k, v, v[k].(busy := false));
      UpdateIndexed(freeHead, elems, v, w, {elem});
      PushIndexed(freeHead, elems, w, {elem}, k);
      freeHead := PushFront(freeHead, idx, elem);
      assert {elem} - {elem} == {};
    }

    /** malloc_elem_free_list_remove */
    method FreeListRemove(elem: Elem, ghost out: set<Elem>)
      requires Indexed(freeHead, elems, View(), out)
      modifies this`freeHead
      ensures freeHead == Unlink(old(freeHead), elem) && CutFrom(old(freeHead), freeHead, elem)
      ensures Indexed(freeHead, elems, View(), out + {elem})
    {
      UnlinkIndexed(freeHead, elems, View(), out, elem);
      UnlinkCuts(freeHead, elem);
      freeHead := Unlink(freeHead, elem);
    }

    // ----- insertion

    /** The heap's end pointers disagree about whether it is empty. */
    predicate EndsCorrupt()
      reads `first, `last
    {
      (first == null) != (last == null)
    }

    /** There is one place for the element in the address order. */
    ghost predicate Placeable(elem: Elem)
      reads `elems, elems`size, elems`state
    {
      elem !in elems && Divides(elems, InsertIndex(View(), elem.addr), elem.addr)
    }

    /**
     malloc_elem_insert. A heap that is in order stays so when the memory of the element is clear of it; the free
     lists of a valid heap then miss nothing but the new element.
     */
    method Insert(elem: Elem)
      requires !EndsCorrupt() ==> Chained() && Placeable(elem)
      modifies this`first, this`last, this`elems, elem`prev, elem`next, elems`prev, elems`next
      ensures old(EndsCorrupt()) ==> unchanged(this) && unchanged(elem) && unchanged(old(elems))
      ensures !old(EndsCorrupt()) ==>
        && Chained()
        && elems == InsertAt(old(elems), InsertIndex(old(View()), elem.addr), elem)
        && View() == InsertBlock(old(View()), old(BlockOf(elem)))
      ensures old(ListOk() && MayInsert(elem)) ==> ListOk()
      ensures old(Valid()) ==> Indexed(freeHead, elems, View(), {elem})
    {
      ghost var v, b, list := View(), BlockOf(elem), elems;
      ghost var order, valid := ListOk() && MayInsert(elem), Valid();
      if (first == null) != (last == null) {
        return;
      }
      if order {
        InsertOrdered(v, b, headerLen, mem.Length);
      }
      if valid {
        InsertIndexed(freeHead, list, v, {}, InsertIndex(v, elem.addr), elem, b);
        assert {} + {elem} == {elem};
      }
      InsertNonCorrupt(elem, InsertIndex(v, elem.addr), InsertBlock(v, b));
    }

    method InsertNonCorrupt(elem: Elem, ghost m: nat, ghost w: seq<Block>)
      requires Chained() && elem !in elems && Divides(elems, m, elem.addr)
      requires w == View()[..m] + [BlockOf(elem)] + View()[m..]
      modifies this`first, this`last, this`elems, elem`prev, elem`next, elems`prev, elems`next
      ensures Chained() && elems == InsertAt(old(elems), m, elem) && View() == w
    {
      Place(elem, m, w);
      SetChain(last, InsertAt(elems, m, elem), w);
    }

    /** In an ordered heap memory that is clear of the elements has its place. */
    lemma {:induction false} ClearIsPlaceable(elem: Elem)
      requires ListOk() && MayInsert(elem)
      ensures Chained() && Placeable(elem) && !EndsCorrupt()
    {
      ElemsDistinct();
      SplitAddresses(elems, View(), elem, headerLen, mem.Length);
    }

    /** What inserting new memory and listing it will leave: w, which differs from the mere insertion at m. */
    lemma {:induction false} InsertPlan(elem: Elem, m: nat, w: seq<Block>)
      requires Valid() && MayInsert(elem) && m == InsertIndex(View(), elem.addr)
      requires w == InsertBlock(View(), Block(elem.addr, elem.size, false))
      ensures Chained() && Placeable(elem) && !EndsCorrupt() && Ordered(w, headerLen, mem.Length)
      ensures var u := InsertBlock(View(), BlockOf(elem)); m < |u| && w == u[m := u[m].(busy := false)]
    {
      ClearIsPlaceable(elem);
      InsertOrdered(View(), Block(elem.addr, elem.size, false), headerLen, mem.Length);
      InsertedMarked(View(), BlockOf(elem));
    }

    /** malloc_elem_insert and malloc_elem_free_list_insert together: new memory for any valid heap. */
    method InsertFree(elem: Elem)
      requires Valid() && MayInsert(elem)
      modifies this`first, this`last, this`elems, this`freeHead
      modifies elem`prev, elem`next, elem`state, elems`prev, elems`next
      ensures Valid() && elem.state == ElemFree
      ensures elems == InsertAt(old(elems), InsertIndex(old(View()), elem.addr), elem)
      ensures View() == InsertBlock(old(View()), Block(elem.addr, elem.size, false))
      ensures freeHead == PushFront(old(freeHead), FreeListIndex(elem.size), elem)
    {
      ghost var m := InsertIndex(View(), elem.addr);
      ghost var w := InsertBlock(View(), Block(elem.addr, elem.size, false));
      InsertPlan(elem, m, w);
      InsertedAt(elems, m, elem);
      Insert(elem);
      Settle(elem, m, w);
    }

    /** Finds the neighbours and links the element in; w is the view this leaves. */
    method Place(elem: Elem, ghost m: nat, ghost w: seq<Block>)
      requires Ends(first, last, elems) && NextLinked(elems) && PrevLinked(elems)
      requires Divides(elems, m, elem.addr) && Distinct(elems) && elem !in elems
      requires w == ViewOf(elems)[..m] + [BlockOf(elem)] + ViewOf(elems)[m..]
      modifies this`first, this`last, elem`prev, elem`next, elems`prev, elems`next
      ensures Ends(first, last, InsertAt(elems, m, elem))
      ensures NextLinked(InsertAt(elems, m, elem)) && PrevLinked(InsertAt(elems, m, elem))
      ensures ViewOf(InsertAt(elems, m, elem)) == w && Distinct(InsertAt(elems, m, elem))
    {
      InsertDistinct(elems, m, elem);
      var prevElem, nextElem := PickNeighbours(elem, m);
      LinkIn(elems, m, elem, prevElem, nextElem);
    }

    ghost predicate MayInsert(elem: Elem)
      reads this, elems, elem
    {
      elem !in elems && Clear(View(), BlockOf(elem)) && headerLen <= elem.size && BlockOf(elem).End() <= mem.Length
    }

    /** Chooses the neighbours of the new element and moves the end pointers. */
    method PickNeighbours(elem: Elem, ghost m: nat) returns (prevElem: Elem?, nextElem: Elem?)
      requires Ends(first, last, elems) && NextLinked(elems) && PrevLinked(elems)
      requires Divides(elems, m, elem.addr)
      modifies this`first, this`last
      ensures prevElem == PrevOf(elems, m) && nextElem == (if m < |elems| then elems[m] else null)
      ensures Ends(first, last, InsertAt(elems, m, elem))
      ensures NextLinked(elems) && PrevLinked(elems)
      ensures ViewOf(elems) == old(ViewOf(elems)) && BlockOf(elem) == old(BlockOf(elem))
    {
      if first == null && last == null {
        first, last := elem, elem;
        prevElem, nextElem := null, null;
      } else if elem.addr < first.addr {
        prevElem, nextElem := null, first;
        first := elem;
      } else if elem.addr > last.addr {
        prevElem, nextElem := last, null;
        last := elem;
      } else {
        var distFromEnd := last.addr - elem.addr;
        var distFromStart := elem.addr - first.addr;
        if distFromStart < distFromEnd {
          prevElem, nextElem := ScanForward(elem, m);
        } else {
          prevElem, nextElem := ScanBackward(elem, m);
        }
      }
    }

    method ScanForward(elem: Elem, ghost m: nat) returns (prevElem: Elem?, nextElem: Elem?)
      requires elems != [] && first == elems[0] && NextLinked(elems)
      requires 0 < m < |elems| && Divides(elems, m, elem.addr)
      ensures prevElem == elems[m - 1] && nextElem == elems[m]
    {
      prevElem := first;
      ghost var p := 0;
      while AddrOf(prevElem.next) < elem.addr
        invariant p < m && prevElem == elems[p]
        decreases |elems| - p
      {
        prevElem := prevElem.next;
        p := p + 1;
      }
      nextElem := prevElem.next;
    }

    method ScanBackward(elem: Elem, ghost m: nat) returns (prevElem: Elem?, nextElem: Elem?)
      requires elems != [] && last == elems[|elems| - 1] && PrevLinked(elems)
      requires 0 < m < |elems| && Divides(elems, m, elem.addr)
      ensures prevElem == elems[m - 1] && nextElem == elems[m]
    {
      nextElem := last;
      ghost var q := |elems| - 1;
      while AddrOf(nextElem.prev) > elem.addr
        invariant m <= q < |elems| && nextElem == elems[q]
        decreases q
      {
        nextElem := nextElem.prev;
        q := q - 1;
      }
      prevElem := nextElem.prev;
    }

    // ----- splitting

    /** The sequence is what following the links gives, whatever the sizes say. */
    ghost predicate Chained()
      reads `first, `last, `elems, elems`next, elems`prev
    {
      Ends(first, last, elems) && NextLinked(elems) && PrevLinked(elems) && Distinct(elems)
    }

    /**
     split_elem. A split point at the element itself makes the new header the old one. One closer than a header
     makes the stores to the two headers overlap: nothing is said about them but the last, the element's size.
     */
    method SplitElem(elem: Elem, start: nat, ghost k: nat) returns (newElem: Elem)
      requires 0 < headerLen
      requires Chained() && k < |elems| && elems[k] == elem && elem.addr <= start <= elem.addr + elem.size
      modifies this`last, this`elems, elem, elems`prev, elems`next
      ensures newElem.addr == start
      ensures start >= elem.addr + headerLen ==>
        && fresh(newElem) && Chained() && elems == InsertAt(old(elems), k + 1, newElem)
        && View() == SplitView(old(View()), k, start)
      ensures elem.addr < start < elem.addr + headerLen ==>
        fresh(newElem) && elems == old(elems) && elem.size == start - elem.addr
      ensures start == elem.addr ==>
        && newElem == elem && elem.next == elem && elem.prev == elem && elem.size == 0
        && elems == old(elems) && View() == old(View())[k := Block(elem.addr, 0, false)]
    {
      if start == elem.addr {
        SplitInPlace(elem, k);
        newElem := elem;
      } else if start < elem.addr + headerLen {
        newElem := SplitOverlapping(elem, start);
      } else {
        newElem := SplitApart(elem, start, k);
      }
    }

    /** The fields of the two overlapping headers end up as anything, except for the size stored last. */
    method SplitOverlapping(elem: Elem, start: nat) returns (newElem: Elem)
      requires elem in elems && PrevLinked(elems) && NextLinked(elems) && elem.addr < start
      modifies this`last, elem, elems`prev
      ensures fresh(newElem) && newElem.addr == start && elem.size == start - elem.addr
    {
      var nextElem := elem.next;
      newElem := new Elem(start);
      if nextElem != null {
        nextElem.prev := newElem;
      } else {
        last := newElem;
      }
      elem.prev, elem.next, elem.state := *, *, *;
      elem.size := start - elem.addr;
    }

    method SplitApart(elem: Elem, start: nat, ghost k: nat) returns (newElem: Elem)
      requires 0 < headerLen && elem.addr + headerLen <= start <= elem.addr + elem.size
      requires Chained() && k < |elems| && elems[k] == elem
      modifies this`last, this`elems, elem`size, elems`prev, elems`next
      ensures fresh(newElem) && newElem.addr == start
      ensures Chained() && elems == InsertAt(old(elems), k + 1, newElem)
      ensures View() == SplitView(old(View()), k, start)
    {
      ghost var v := View();
      ghost var low, high := Block(elem.addr, start - elem.addr, v[k].busy), Block(start, v[k].End() - start, false);
      ghost var w := v[..k + 1] + [high] + v[k + 1..];
      ghost var target := SplitView(v, k, start);
      SplitViewIs(v, k, start);
      assert target == w[k := low];
      var nextElem := elem.next;
      var oldElemSize := start - elem.addr;
      var newElemSize := elem.size - oldElemSize;
      newElem := new Elem(start);
      newElem.Init(newElemSize);
      assert BlockOf(newElem) == high;
      InsertAfter(elem, newElem, nextElem, k, w);
      ShrinkTo(elem, oldElemSize, k, low);
      assert View() == target;
    }

    /** The last store of split_elem. */
    method ShrinkTo(elem: Elem, size: nat, ghost k: nat, ghost b: Block)
      requires k < |elems| && elems[k] == elem && Chained() && b == BlockOf(elem).(size := size)
      modifies elem`size
      ensures View() == old(View())[k := b] && Chained()
    {
      ghost var v := View();
      elem.size := size;
      ChangedView(elems, k, v, b);
    }

    /** The links of a new element put in after elem, and the last pointer; w is the view this leaves. */
    method InsertAfter(elem: Elem, newElem: Elem, nextElem: Elem?, ghost k: nat, ghost w: seq<Block>)
      requires Chained() && k < |elems| && elems[k] == elem && newElem !in elems
      requires nextElem == elem.next
      requires w == View()[..k + 1] + [BlockOf(newElem)] + View()[k + 1..]
      modifies this`last, this`elems, newElem`prev, newElem`next, elems`prev, elems`next
      ensures Chained() && elems == InsertAt(old(elems), k + 1, newElem)
      ensures View() == w
    {
      ghost var list := InsertAt(elems, k + 1, newElem);
      InsertDistinct(elems, k + 1, newElem);
      EndsAfterInsert(first, last, elems, k, newElem);
      LinkIn(elems, k + 1, newElem, elem, nextElem);
      SetChain(if nextElem == null then newElem else last, list, w);
    }

    /** Stores the last pointer of a list that is linked up already; w is its view. */
    method SetChain(newLast: Elem?, ghost list: seq<Elem>, ghost w: seq<Block>)
      requires Ends(first, newLast, list) && NextLinked(list) && PrevLinked(list) && Distinct(list)
      requires ViewOf(list) == w
      modifies this`last, this`elems
      ensures Chained() && elems == list && View() == w && last == newLast
    {
      last := newLast;
      elems := list;
    }

    method SplitInPlace(elem: Elem, ghost k: nat)
      requires Chained() && k < |elems| && elems[k] == elem
      modifies this`last, elem, elems`prev
      ensures elem.next == elem && elem.prev == elem && elem.size == 0
      ensures View() == old(View())[k := Block(elem.addr, 0, false)]
    {
      ghost var v := View();
      var nextElem := elem.next;
      elem.Init(elem.size);
      elem.prev := elem;
      elem.next := nextElem;
      if nextElem != null {
        nextElem.prev := elem;
      } else {
        last := elem;
      }
      elem.next := elem;
      elem.size := 0;
      ChangedView(elems, k, v, Block(elem.addr, 0, false));
    }

    // ----- joining

    /** join_elem: elem1 swallows elem2, which follows it. */
    method JoinElem(elem1: Elem, elem2: Elem, ghost k: nat)
      requires Chained() && k + 1 < |elems| && elems[k] == elem1 && elems[k + 1] == elem2
      modifies this`last, this`elems, elem1`size, elem1`next, elems`prev
      ensures Chained() && elems == old(elems)[..k + 1] + old(elems)[k + 2..]
      ensures View() == JoinNext(old(View()), k)
    {
      ghost var v := View();
      var next := elem2.next;
      GrowBy(elem1, elem2.size, k, v);
      Unchain(elem1, next, k, JoinNext(v, k));
    }

    method GrowBy(elem1: Elem, size: nat, ghost k: nat, ghost v: seq<Block>)
      requires Chained() && k + 1 < |elems| && elems[k] == elem1 && v == View() && size == v[k + 1].size
      modifies elem1`size
      ensures Chained() && View()[..k + 1] + View()[k + 2..] == JoinNext(v, k)
    {
      GrownView(v, k);
      elem1.size := elem1.size + size;
      ChangedView(elems, k, v, Block(elem1.addr, v[k].size + v[k + 1].size, v[k].busy));
    }

    method Unchain(elem1: Elem, next: Elem?, ghost k: nat, ghost w: seq<Block>)
      requires Chained() && k + 1 < |elems| && elems[k] == elem1 && next == elems[k + 1].next
      requires w == View()[..k + 1] + View()[k + 2..]
      modifies this`last, this`elems, elem1`next, elems`prev
      ensures Chained() && elems == old(elems)[..k + 1] + old(elems)[k + 2..]
      ensures View() == w
    {
      ghost var list := elems[..k + 1] + elems[k + 2..];
      EndsAfterRemove(first, last, elems, k);
      RemoveDistinct(elems, k + 1);
      SkipNext(elems, k, elem1, next, w);
      SetChain(if next == null then elem1 else last, list, w);
    }

    // ----- allocation

    /** malloc_elem_alloc, for a caller that has checked that the element can hold the request. */
    method Alloc(elem: Elem, size: nat, align: nat, ghost k: nat) returns (newElem: Elem)
      requires Valid() && k < |elems| && elems[k] == elem && elem.state == ElemFree
      requires IsPow2(align) && Roomy(elem.addr, elem.size, align, headerLen)
      requires align > 0 && CanHold(elem.addr, elem.size, size, align, headerLen)
      modifies this`last, this`elems, this`freeHead, elem, elems`prev, elems`next
      ensures newElem.addr == old(Start(elem, size, align)) <= elem.addr + old(elem.size)
      // the heap is left intact exactly when the remainder keeps room for its header
      ensures Valid() <==> newElem.addr - elem.addr >= headerLen
      ensures newElem.addr - elem.addr >= headerLen ==>
        && fresh(newElem) && newElem.state == ElemBusy
        && elems == InsertAt(old(elems), k + 1, newElem)
        && View() == AllocBlock(old(View()), k, newElem.addr)
        && freeHead == PushFront(Unlink(old(freeHead), elem), FreeListIndex(elem.size), elem)
      ensures newElem.addr == elem.addr ==> newElem == elem && elem.next == elem && elem.size == 0
    {
      ghost var v := View();
      StartInside(elem, size, align);
      var start := ElemStart(elem.addr, elem.size, size, align, headerLen).value;
      ElemsDistinct();
      newElem := Carve(elem, start, k);
      if start >= elem.addr + headerLen {
        AllocOrdered(v, k, start, headerLen, mem.Length);
      }
    }

    function Start(elem: Elem, size: nat, align: nat): int
      reads elem`size
      requires align > 0 && CanHold(elem.addr, elem.size, size, align, headerLen)
    {
      ElemStart(elem.addr, elem.size, size, align, headerLen).value
    }

    /** The chosen start leaves a whole header and the data below the element's end. */
    lemma {:induction false} StartInside(elem: Elem, size: nat, align: nat)
      requires IsPow2(align) && Roomy(elem.addr, elem.size, align, headerLen)
      requires align > 0 && CanHold(elem.addr, elem.size, size, align, headerLen)
      ensures elem.addr <= Start(elem, size, align) && Start(elem, size,
          align) + headerLen + size <= elem.addr + elem.size
    {
      StartIsHighestFit(elem.addr, elem.size, size, align, headerLen);
    }

    /** The body of malloc_elem_alloc from the unlinking on. */
    method Carve(elem: Elem, start: nat, ghost k: nat) returns (newElem: Elem)
      requires 0 < headerLen && elem.addr <= start <= elem.addr + elem.size
      requires Chained() && Indexed(freeHead, elems, View(), {}) && k < |elems| && elems[k] == elem
      requires elem.state == ElemFree
      modifies this`last, this`elems, this`freeHead, elem, elems`prev, elems`next
      ensures newElem.addr == start
      ensures start >= elem.addr + headerLen ==>
        && fresh(newElem) && newElem.state == ElemBusy
        && Chained() && Indexed(freeHead, elems, View(), {})
        && elems == InsertAt(old(elems), k + 1, newElem)
        && View() == AllocBlock(old(View()), k, start)
        && freeHead == PushFront(Unlink(old(freeHead), elem), FreeListIndex(elem.size), elem)
      ensures start < elem.addr + headerLen ==> !ListOk()
      ensures start == elem.addr ==> newElem == elem && elem.next == elem && elem.size == 0
    {
      if start == elem.addr {
        newElem := CarveInPlace(elem, k);
        TooSmall(elem, k);
      } else if start < elem.addr + headerLen {
        newElem := CarveOverlapping(elem, start, k);
        TooSmall(elem, k);
      } else {
        newElem := CarveApart(elem, start, k);
      }
    }

    /** An element without room for its header spoils the heap. */
    lemma {:induction false} TooSmall(elem: Elem, k: nat)
      requires k < |elems| && elems[k] == elem && elem.size < headerLen
      ensures !ListOk()
    {
      assert View()[k].size < headerLen;
    }

    /** The same stores after a split that made the headers overlap: marking the new one may land on the old size. */
    method CarveOverlapping(elem: Elem, start: nat, ghost k: nat) returns (newElem: Elem)
      requires 0 < headerLen && elem.addr < start < elem.addr + headerLen && start <= elem.addr + elem.size
      requires Chained() && Indexed(freeHead, elems, View(), {}) && k < |elems| && elems[k] == elem
      modifies this`last, this`elems, this`freeHead, elem, elems`prev, elems`next
      ensures newElem.addr == start && elems == old(elems) && elem.size < headerLen
    {
      FreeListRemove(elem, {});
      newElem := SplitElem(elem, start, k);
      newElem.state := ElemBusy;
      var kept: nat :| kept < headerLen;
      elem.size := kept;
      elem.state := ElemFree;
      freeHead := PushFront(freeHead, FreeListIndex(elem.size), elem);
    }

    method CarveApart(elem: Elem, start: nat, ghost k: nat) returns (newElem: Elem)
      requires Chained() && Indexed(freeHead, elems, View(), {}) && k < |elems| && elems[k] == elem
      requires elem.state == ElemFree && 0 < headerLen && elem.addr + headerLen <= start <= elem.addr + elem.size
      modifies this`last, this`elems, this`freeHead, elem, elems`prev, elems`next
      ensures fresh(newElem) && newElem.addr == start && newElem.state == ElemBusy
      ensures Chained() && Indexed(freeHead, elems, View(), {})
      ensures elems == InsertAt(old(elems), k + 1, newElem)
      ensures View() == AllocBlock(old(View()), k, start)
      ensures freeHead == PushFront(Unlink(old(freeHead), elem), FreeListIndex(elem.size), elem)
    {
      ghost var w, lists := AllocBlock(View(), k, start), Unlink(freeHead, elem);
      assert {} + {elem} == {elem};
      FreeListRemove(elem, {});
      newElem := SplitOff(elem, start, k, w);
      Relist(elem, start - elem.addr, k, w, lists);
    }

    /** The split of an element that is off its list; w is the view this leaves. */
    method SplitOff(elem: Elem, start: nat, ghost k: nat, ghost w: seq<Block>) returns (newElem: Elem)
      requires Chained() && k < |elems| && elems[k] == elem && elem.state == ElemFree
      requires 0 < headerLen && elem.addr + headerLen <= start <= elem.addr + elem.size
      requires w == AllocBlock(View(), k, start)
      requires Indexed(freeHead, elems, View(), {elem})
      modifies this`last, this`elems, elem, elems`prev, elems`next
      ensures fresh(newElem) && newElem.addr == start && newElem.state == ElemBusy
      ensures Chained() && elems == InsertAt(old(elems), k + 1, newElem) && elems[k] == elem
      ensures View() == w && w[k := w[k].(busy := false)] == w && w[k] == Block(elem.addr, start - elem.addr, false)
      ensures Indexed(freeHead, elems, w, {elem})
      ensures freeHead == old(freeHead)
    {
      ghost var v, was := View(), elems;
      newElem := SplitBusy(elem, start, k, w);
      AllocIndexed(freeHead, was, v, k, start, newElem);
      AllocBlockAt(v, k, start);
    }

    /** Puts the low part of a carved element on the list for its size. */
    method Relist(elem: Elem, size: nat, ghost k: nat, ghost w: seq<Block>, ghost lists: seq<seq<Elem>>)
      requires Chained() && k < |elems| && elems[k] == elem
      requires View() == w && w[k] == Block(elem.addr, size, false) && Indexed(freeHead, elems, w, {elem})
      requires freeHead == lists
      modifies this`freeHead, elem`state
      ensures Chained() && View() == w && Indexed(freeHead, elems, w, {})
      ensures freeHead == PushFront(lists, FreeListIndex(elem.size), elem)
    {
      assert w[k := w[k].(busy := false)] == w;
      FreeListInsert(elem, k, w);
    }

    /** The split, with the high part marked busy; w is the view this leaves. */
    method SplitBusy(elem: Elem, start: nat, ghost k: nat, ghost w: seq<Block>) returns (newElem: Elem)
      requires Chained() && k < |elems| && elems[k] == elem && elem.state == ElemFree
      requires 0 < headerLen && elem.addr + headerLen <= start <= elem.addr + elem.size
      requires w == AllocBlock(View(), k, start)
      modifies this`last, this`elems, elem, elems`prev, elems`next
      ensures fresh(newElem) && newElem.addr == start && newElem.state == ElemBusy
      ensures Chained() && elems == InsertAt(old(elems), k + 1, newElem) && elems[k] == elem
      ensures View() == w
    {
      ghost var v := View();
      newElem := SplitElem(elem, start, k);
      InsertedAt(old(elems), k + 1, newElem);
      SplitMarked(v, k, start);
      MarkBusy(newElem, k + 1, w);
    }

    /** new_elem->state = ELEM_BUSY; w is the view this leaves. */
    method MarkBusy(elem: Elem, ghost k: nat, ghost w: seq<Block>)
      requires Chained() && k < |elems| && elems[k] == elem && w == View()[k := View()[k].(busy := true)]
      modifies elem`state
      ensures elem.state == ElemBusy && Chained() && View() == w
    {
      ghost var v := View();
      elem.state := ElemBusy;
      ChangedView(elems, k, v, v[k].(busy := true));
    }

    method CarveInPlace(elem: Elem, ghost k: nat) returns (newElem: Elem)
      requires 0 < headerLen
      requires Chained() && Indexed(freeHead, elems, View(), {}) && k < |elems| && elems[k] == elem
      requires elem.state == ElemFree
      modifies this`last, this`elems, this`freeHead, elem, elems`prev, elems`next
      ensures newElem == elem && elem.next == elem && elem.size == 0
      ensures elems == old(elems) && View() == old(View())[k := Block(elem.addr, 0, false)]
    {
      ghost var w := View()[k := Block(elem.addr, 0, false)];
      assert {} + {elem} == {elem};
      FreeListRemove(elem, {});
      newElem := SplitOffInPlace(elem, k, View()[k := Block(elem.addr, 0, true)]);
      FreeListInsert(elem, k, w);
    }

    /** The degenerate split of an element that is off its list; w is the view this leaves. */
    method SplitOffInPlace(elem: Elem, ghost k: nat, ghost w: seq<Block>) returns (newElem: Elem)
      requires 0 < headerLen
      requires Chained() && k < |elems| && elems[k] == elem && w == View()[k := Block(elem.addr, 0, true)]
      requires Indexed(freeHead, elems, View(), {elem})
      modifies this`last, this`elems, elem, elems`prev, elems`next
      ensures newElem == elem && elem.next == elem && elem.size == 0
      ensures elems == old(elems) && View() == w && Distinct(elems) && Indexed(freeHead, elems, w, {elem})
    {
      ghost var v := View();
      newElem := SplitBusyInPlace(elem, k, w);
      UpdateIndexed(freeHead, elems, v, w, {elem});
    }

    method SplitBusyInPlace(elem: Elem, ghost k: nat, ghost w: seq<Block>) returns (newElem: Elem)
      requires 0 < headerLen
      requires Chained() && k < |elems| && elems[k] == elem && w == View()[k := Block(elem.addr, 0, true)]
      modifies this`last, this`elems, elem, elems`prev, elems`next
      ensures newElem == elem && elem.next == elem && elem.size == 0
      ensures elems == old(elems) && View() == w
    {
      ghost var v := View();
      newElem := SplitElem(elem, elem.addr, k);
      newElem.state := ElemBusy;
      ChangedView(elems, k, v, Block(elem.addr, 0, true));
    }

    // ----- freeing

    /** malloc_elem_free */
    method Free(elem: Elem, ghost k: nat) returns (r: Elem)
      requires Valid() && k < |elems| && elems[k] == elem && elem.state == ElemBusy
      modifies this`last, this`elems, this`freeHead, this`allocCount, mem
      modifies elems`prev, elems`next, elems`size, elems`state
      ensures Valid() && View() == FreeBlock(old(View()), k) && elems == old(Remaining(k))
      ensures r == old(if JoinsPrev(View(), k) then elems[k - 1] else elem) && r.state == ElemFree
      ensures freeHead == PushFront(old(ListsApart(k)), FreeListIndex(r.size), r)
      ensures allocCount == Decremented(old(allocCount))
      ensures Zeroed(old(mem[..]), mem[..], elem.addr + headerLen, old(elem.size) - headerLen)
    {
      ghost var v, lists, kept, bytes := FreeBlock(View(), k), ListsApart(k), Remaining(k), mem[..];
      ElemInside(elem, k);
      var ptr, dataLen := elem.addr + headerLen, elem.size - headerLen;
      r := Release(elem, k, v, lists, kept, bytes);
      Wipe(ptr, dataLen, r, v, kept, bytes);
    }

    /** The count and the bytes of a freed block; v is the view, which stays as it is. */
    method Wipe(ptr: nat, dataLen: nat, elem: Elem, ghost v: seq<Block>, ghost list: seq<Elem>,
      ghost bytes: seq<Byte>)
      requires Valid() && View() == v && elems == list && ptr + dataLen <= mem.Length && elem.state == ElemFree &&
          mem[..] == bytes
      modifies this`allocCount, mem
      ensures Valid() && View() == v && elems == list && elem.state == ElemFree
      ensures elem.size == old(elem.size) && freeHead == old(freeHead)
      ensures allocCount == Decremented(old(allocCount))
      ensures Zeroed(bytes, mem[..], ptr, dataLen)
    {
      assert forall i :: 0 <= i < |elems| ==> elems[i] as object != mem;
      allocCount := Decremented(allocCount);
      Zero(ptr, dataLen);
    }

    /** memset(ptr, 0, dataLen) */
    method Zero(ptr: nat, dataLen: nat)
      requires ptr + dataLen <= mem.Length
      modifies mem
      ensures Zeroed(old(mem[..]), mem[..], ptr, dataLen)
    {
      for i := 0 to dataLen
        invariant forall a :: 0 <= a < mem.Length ==> mem[a] == if ptr <= a < ptr + i then 0 else old(mem[a])
      {
        mem[ptr + i] := 0;
      }
    }

    /** The free lists without the free neighbours that freeing elems[k] merges with. */
    ghost function ListsApart(k: nat): seq<seq<Elem>>
      reads this, elems
      requires k < |elems|
    {
      var lists := if JoinsNext(View(), k) then Unlink(freeHead, elems[k + 1]) else freeHead;
      if JoinsPrev(View(), k) then Unlink(lists, elems[k - 1]) else lists
    }

    /** The elements that freeing elems[k] leaves in the list. */
    ghost function Remaining(k: nat): seq<Elem>
      reads `elems, elems
      requires k < |elems|
    {
      var right := if JoinsNext(View(), k) then elems[..k + 1] + elems[k + 2..] else elems;
      if JoinsPrev(View(), k) then right[..k] + right[k + 1..] else right
    }

    /** A busy element is on no list, and freeing it will keep the order. */
    lemma {:induction false} BusyApart(elem: Elem, k: nat)
      requires Valid() && k < |elems| && elems[k] == elem && elem.state == ElemBusy
      ensures Chained() && Indexed(freeHead, elems, View(), {elem})
      ensures Ordered(FreeBlock(View(), k), headerLen, mem.Length)
    {
      ElemsDistinct();
      BusyIndexed(freeHead, elems, View(), {}, k);
      assert {} + {elem} == {elem};
      FreeOrdered(View(), k, headerLen, mem.Length);
    }

    /** The merging and relisting of a busy element; w is the view this leaves, and bytes the memory. */
    method Release(elem: Elem, ghost k: nat, ghost w: seq<Block>, ghost lists: seq<seq<Elem>>, ghost kept: seq<Elem>,
      ghost bytes: seq<Byte>) returns (r: Elem)
      requires Valid() && k < |elems| && elems[k] == elem && elem.state == ElemBusy
      requires w == FreeBlock(View(), k) && lists == ListsApart(k) && kept == Remaining(k) && bytes == mem[..]
      modifies this`last, this`elems, this`freeHead
      modifies elems`prev, elems`next, elems`size, elems`state
      ensures Valid() && View() == w && elems == kept && mem[..] == bytes
      ensures r == old(if JoinsPrev(View(), k) then elems[k - 1] else elem) && r.state == ElemFree
      ensures freeHead == PushFront(lists, FreeListIndex(r.size), r)
    {
      BusyApart(elem, k);
      ghost var j;
      r, j := Merge(elem, k, w, lists, kept, bytes);
      Settle(r, j, w);
    }

    /** The merging alone: what is left of w is to mark the merged element free. */
    method Merge(elem: Elem, ghost k: nat, ghost w: seq<Block>, ghost lists: seq<seq<Elem>>, ghost kept: seq<Elem>,
      ghost bytes: seq<Byte>) returns (r: Elem, ghost j: nat)
      requires Chained() && k < |elems| && elems[k] == elem && Indexed(freeHead, elems, View(), {elem})
      requires w == FreeBlock(View(), k) && lists == ListsApart(k) && kept == Remaining(k) && bytes == mem[..]
      modifies this`last, this`elems, this`freeHead
      modifies elems`prev, elems`next, elems`size
      ensures Chained() && elems == kept && freeHead == lists && mem[..] == bytes
      ensures j < |elems| && elems[j] == r && Indexed(freeHead, elems, View(), {r})
      ensures w == View()[j := View()[j].(busy := false)]
      ensures r == old(if JoinsPrev(View(), k) then elems[k - 1] else elem)
    {
      assert forall i :: 0 <= i < |elems| ==> elems[i] as object != mem;
      FreeIsJoinThenMark(View(), k);
      r, j := JoinAdjacentFree(elem, k);
    }

    /** Puts a busy element back on a list; w is the view this leaves. */
    method Settle(elem: Elem, ghost k: nat, ghost w: seq<Block>)
      requires Chained() && 0 < headerLen && mem.Length < TWO_64 && Ordered(w, headerLen, mem.Length)
      requires k < |elems| && elems[k] == elem && Indexed(freeHead, elems, View(), {elem})
      requires w == View()[k := View()[k].(busy := false)]
      modifies this`freeHead, elem`state
      ensures Valid() && View() == w && elem.state == ElemFree
      ensures freeHead == PushFront(old(freeHead), FreeListIndex(elem.size), elem)
    {
      FreeListInsert(elem, k, w);
    }

    /** malloc_elem_join_adjacent_free; j is where the resulting element is. */
    method JoinAdjacentFree(elem: Elem, ghost k: nat) returns (r: Elem, ghost j: nat)
      requires Chained() && k < |elems| && elems[k] == elem && Indexed(freeHead, elems, View(), {elem})
      modifies this`last, this`elems, this`freeHead
      modifies elems`prev, elems`next, elems`size
      ensures Chained() && View() == old(JoinedPrev(JoinedNext(View(), k), k))
      ensures j == old(if JoinsPrev(View(), k) then k - 1 else k) < |elems| && elems[j] == r
      ensures r == old(if JoinsPrev(View(), k) then elems[k - 1] else elem)
      ensures Indexed(freeHead, elems, View(), {r}) && freeHead == old(ListsApart(k)) && elems == old(Remaining(k))
    {
      FreeIsJoinThenMark(View(), k);
      JoinWithNext(elem, k);
      r, j := JoinWithPrev(elem, k);
    }

    method JoinWithNext(elem: Elem, ghost k: nat)
      requires Chained() && k < |elems| && elems[k] == elem && Indexed(freeHead, elems, View(), {elem})
      modifies this`last, this`elems, this`freeHead, elem`size, elem`next, elems`prev
      ensures Chained() && k < |elems| && elems[k] == elem && PrevOf(elems, k) == PrevOf(old(elems), k)
      ensures forall i :: 0 <= i < |elems| ==> elems[i] in old(elems)
      ensures View() == JoinedNext(old(View()), k) && Indexed(freeHead, elems, View(), {elem})
      ensures elems == old(if JoinsNext(View(), k) then elems[..k + 1] + elems[k + 2..] else elems)
      ensures freeHead == old(if JoinsNext(View(), k) then Unlink(freeHead, elems[k + 1]) else freeHead)
    {
      if elem.next != null && elem.next.state == ElemFree && elem.next.addr == elem.addr + elem.size {
        JoinPair(elem, elem.next, elem.next, {elem}, k, JoinNext(View(), k));
      }
    }

    method JoinWithPrev(elem: Elem, ghost k: nat) returns (r: Elem, ghost j: nat)
      requires Chained() && k < |elems| && elems[k] == elem && Indexed(freeHead, elems, View(), {elem})
      modifies this`last, this`elems, this`freeHead, elems`size, elems`next, elems`prev
      ensures Chained() && View() == JoinedPrev(old(View()), k) && Indexed(freeHead, elems, View(), {r})
      ensures elems == old(if JoinsPrev(View(), k) then elems[..k] + elems[k + 1..] else elems)
      ensures j == old(if JoinsPrev(View(), k) then k - 1 else k) < |elems| && elems[j] == r
      ensures r == old(if JoinsPrev(View(), k) then elems[k - 1] else elem)
      ensures freeHead == old(if JoinsPrev(View(), k) then Unlink(freeHead, elems[k - 1]) else freeHead)
    {
      r, j := elem, k;
      if elem.prev != null && elem.prev.state == ElemFree && elem.addr == elem.prev.addr + elem.prev.size {
        r, j := elem.prev, k - 1;
        JoinPair(r, elem, r, {elem}, j, JoinNext(View(), j));
      }
    }

    /** Takes one of two neighbours off its list and joins them; w is the view this leaves. */
    method JoinPair(elem1: Elem, elem2: Elem, listed: Elem, ghost out: set<Elem>, ghost k: nat, ghost w: seq<Block>)
      requires Chained() && k + 1 < |elems| && elems[k] == elem1 && elems[k + 1] == elem2
      requires Indexed(freeHead, elems, View(), out) && out + {listed} == {elem1, elem2} && w == JoinNext(View(), k)
      modifies this`last, this`elems, this`freeHead, elem1`size, elem1`next, elems`prev
      ensures Chained() && elems == old(elems)[..k + 1] + old(elems)[k + 2..] && View() == w
      ensures Indexed(freeHead, elems, w, {elem1}) && freeHead == Unlink(old(freeHead), listed)
    {
      FreeListRemove(listed, out);
      JoinIndexed(freeHead, elems, View(), k);
      JoinElem(elem1, elem2, k);
    }
  }
}
