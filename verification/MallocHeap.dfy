/** malloc_heap.c: creating a heap, and allocating and freeing by request. */
module MallocHeap {
  import opened Bits
  import opened SizeClass
  import opened Blocks
  import opened Elements
  import opened FreeLists
  import opened Heap
  import opened HeapRuns

  /** malloc_elem_can_hold, read off the element. */
  predicate Holds(e: Elem, size: nat, align: nat, header: nat)
    requires align > 0
    reads e`size
  {
    CanHold(e.addr, e.size, size, align, header)
  }

  /** Every element lies high enough that fitting a request cannot wrap around address zero. */
  ghost predicate HighEnough(heap: Heap, align: nat)
    reads heap`elems
  {
    forall i :: 0 <= i < |heap.elems| ==> align + heap.headerLen <= heap.elems[i].addr
  }

  /** The elements of lists before list b, and those before place j of list b, cannot hold the request. */
  ghost predicate NoneBefore(lists: seq<seq<Elem>>, from: nat, b: nat, j: nat, size: nat, align: nat, header: nat)
    requires align > 0
    reads set c, i | 0 <= c < |lists| && 0 <= i < |lists[c]| :: lists[c][i]
  {
    && (forall c, i :: from <= c < b && c < |lists| && 0 <= i < |lists[c]| ==> !Holds(lists[c][i], size, align, header))
    && (b < |lists| ==> forall i :: 0 <= i < j && i < |lists[b]| ==> !Holds(lists[b][i], size, align, header))
  }

  /** The first element of a list that can hold the request. */
  function FirstIn(l: seq<Elem>, size: nat, align: nat, header: nat): Elem?
    requires align > 0
    reads l`size
  {
    if l == [] then null
    else if Holds(l[0], size, align, header) then l[0]
    else FirstIn(l[1..], size, align, header)
  }

  /** The first such element, list by list from one list upwards. */
  function FirstHolder(lists: seq<seq<Elem>>, from: nat, size: nat, align: nat, header: nat): Elem?
    requires align > 0
    reads set c, i | 0 <= c < |lists| && 0 <= i < |lists[c]| :: lists[c][i]
    decreases |lists| - from
  {
    if from >= |lists| then null
    else if FirstIn(lists[from], size, align, header) != null then FirstIn(lists[from], size, align, header)
    else FirstHolder(lists, from + 1, size, align, header)
  }

  /** Its place in the list: it can hold the request, and nothing before it can. */
  lemma {:induction false} FirstInMeans(l: seq<Elem>, size: nat, align: nat, header: nat) returns (j: nat)
    requires align > 0
    ensures j <= |l| && (FirstIn(l, size, align, header) == null <==> j == |l|)
    ensures j < |l| ==> FirstIn(l, size, align, header) == l[j] && Holds(l[j], size, align, header)
    ensures forall i :: 0 <= i < j ==> !Holds(l[i], size, align, header)
  {
    if l == [] || Holds(l[0], size, align, header) {
      j := 0;
    } else {
      var rest := FirstInMeans(l[1..], size, align, header);
      j := rest + 1;
      assert forall i :: 0 < i < j ==> l[i] == l[1..][i - 1];
    }
  }

  /** The same over all lists. */
  lemma {:induction false} FirstHolderMeans(lists: seq<seq<Elem>>, from: nat, size: nat, align: nat, header: nat)
    returns (b: nat, j: nat)
    requires align > 0 && from <= |lists|
    ensures from <= b <= |lists| && (FirstHolder(lists, from, size, align, header) == null <==> b == |lists|)
    ensures b < |lists| ==>
      && j < |lists[b]| && FirstHolder(lists, from, size, align, header) == lists[b][j]
      && Holds(lists[b][j], size, align, header)
    ensures NoneBefore(lists, from, b, j, size, align, header)
    decreases |lists| - from
  {
    if from == |lists| {
      b, j := from, 0;
    } else {
      j := FirstInMeans(lists[from], size, align, header);
      b := from;
      if j == |lists[from]| {
        b, j := FirstHolderMeans(lists, from + 1, size, align, header);
      }
    }
  }

  /** Every listed element is a free element of the heap. */
  lemma {:induction false} Listed(heap: Heap, b: nat, j: nat) returns (k: nat)
    requires heap.Valid() && b < |heap.freeHead| && j < |heap.freeHead[b]|
    ensures k < |heap.elems| && heap.elems[k] == heap.freeHead[b][j] && heap.elems[k].state == ElemFree
  {
    var e := heap.freeHead[b][j];
    assert e in heap.freeHead[b] && e in heap.elems;
    k :| 0 <= k < |heap.elems| && heap.elems[k] == e;
    assert !heap.View()[k].busy;
  }

  /** Some block of the heap could take the request. */
  ghost predicate CanServe(header: nat, v: seq<Block>, r: Request) {
    exists i: nat :: Holder(header, v, i, r)
  }

  lemma {:induction false} NoneServes(heap: Heap, r: Request)
    requires r.align > 0
    requires forall i :: 0 <= i < |heap.elems| && !heap.View()[i].busy ==>
        !Holds(heap.elems[i], r.size, r.align, heap.headerLen)
    ensures !CanServe(heap.headerLen, heap.View(), r)
  {
    forall i: nat ensures !Holder(heap.headerLen, heap.View(), i, r) {
    }
  }

  /**
   find_suitable_element: the first element able to hold the request, list by list from the request's own class
   upwards. Nothing is found exactly when no free element of the heap can hold it.
   */
  method FindSuitable(heap: Heap, size: nat, align: nat) returns (altElem: Elem?)
    requires heap.Valid() && IsPow2(align) && align > 0 && HighEnough(heap, align)
    ensures altElem == FirstHolder(heap.freeHead, FreeListIndex(size), size, align, heap.headerLen)
    ensures altElem == null <==> !CanServe(heap.headerLen, heap.View(), Request(size, align))
  {
    altElem := null;
    ghost var lists, header := heap.freeHead, heap.headerLen;
    var start := FreeListIndex(size);
    for idx := start to RTE_HEAP_NUM_FREELISTS
      invariant FirstHolder(lists, start, size, align, header)
             == if altElem != null then altElem else FirstHolder(lists, idx, size, align, header)
    {
      var list := heap.freeHead[idx];
      for i := 0 to |list|
        invariant FirstHolder(lists, start, size, align, header)
               == if altElem != null then altElem
                  else if FirstIn(list[i..], size, align, header) != null then FirstIn(list[i..], size, align, header)
                  else FirstHolder(lists, idx + 1, size, align, header)
      {
        assert list[i..][0] == list[i] && list[i..][1..] == list[i + 1..];
        if Holds(list[i], size, align, heap.headerLen) {
          if altElem == null {
            altElem := list[i];
          }
        }
      }
    }
    ghost var b, j := FirstHolderMeans(lists, start, size, align, header);
    if altElem == null {
      NoneHolds(heap, size, align, j);
      NoneServes(heap, Request(size, align));
    } else {
      ghost var k := Listed(heap, b, j);
      assert Holder(heap.headerLen, heap.View(), k, Request(size, align));
    }
  }

  /** The lists from the request's class upwards have every free element that can hold it. */
  lemma {:induction false} NoneHolds(heap: Heap, size: nat, align: nat, j: nat)
    requires heap.Valid() && IsPow2(align) && align > 0 && HighEnough(heap, align)
    requires NoneBefore(heap.freeHead, FreeListIndex(size), RTE_HEAP_NUM_FREELISTS, j, size, align, heap.headerLen)
    ensures forall i :: 0 <= i < |heap.elems| && !heap.View()[i].busy ==>
              !Holds(heap.elems[i], size, align, heap.headerLen)
  {
    forall i | 0 <= i < |heap.elems| && !heap.View()[i].busy
      ensures !Holds(heap.elems[i], size, align, heap.headerLen)
    {
      var e, c := heap.elems[i], FreeListIndex(heap.elems[i].size);
      heap.ElemInside(e, i);
      if c < FreeListIndex(size) {
        LowerClassCannotHold(e.addr, e.size, size, align, heap.headerLen);
      } else {
        assert e in heap.freeHead[c];
      }
    }
  }

  // ----- rounding what the caller asks for

  /** The alignment handed down: rounded to a cache line, then passed as an unsigned int. */
  function RoundedAlign(align: nat): nat {
    Word32(CacheLineRoundup(align))
  }

  function Rounded(size: nat, align: nat): Request {
    Request(CacheLineRoundup(size), RoundedAlign(align))
  }

  lemma {:induction false} LargeAlignment(align: nat)
    requires align % 64 == 0 && align <= TWO_31
    ensures RoundedAlign(align) == align
  {
  }

  lemma {:induction false} SmallAlignment(align: nat)
    requires 0 < align <= 64
    ensures RoundedAlign(align) == 64
  {
  }

  lemma {:induction false} DividesThrough(d: nat, a: nat, b: nat)
    requires a > 0 && a * b > 0 && d % (a * b) == 0
    ensures d % a == 0
  {
    var q := d / (a * b);
    assert d == a * b * q == a * (b * q);
    DivModUnique(d, a, b * q, 0);
  }

  lemma {:induction false} LargePow2(align: nat, k: nat)
    requires align == Pow2(k) && k >= 6 && align <= TWO_31
    ensures RoundedAlign(align) == align
  {
    Pow2Adds(6, k - 6);
    assert Pow2(6) == 64;
    LargeAlignment(align);
  }

  lemma {:induction false} SmallPow2(align: nat, k: nat, d: nat)
    requires align == Pow2(k) && k < 6
    ensures RoundedAlign(align) == Pow2(6) && (d % Pow2(6) == 0 ==> d % align == 0)
  {
    assert Pow2(6) == 64;
    Pow2Adds(k, 6 - k);
    Pow2Monotone(k, 6);
    SmallAlignment(align);
    if d % 64 == 0 {
      DividesThrough(d, align, Pow2(6 - k));
    }
  }

  /** A power-of-two alignment stays one, and data aligned to the rounded value is aligned as requested. */
  lemma {:induction false} AlignmentHonoured(align: nat, d: nat)
    requires IsPow2(align) && align <= TWO_31
    ensures IsPow2(RoundedAlign(align)) && (d % RoundedAlign(align) == 0 ==> d % align == 0)
  {
    var k: nat :| align == Pow2(k);
    if k >= 6 {
      LargePow2(align, k);
    } else {
      SmallPow2(align, k, d);
    }
  }

  // ----- the operations

  ghost function Snapshot(heap: Heap): Store
    reads heap, heap.elems, heap.mem
  {
    Store(heap.View(), heap.mem[..], heap.allocCount)
  }

  /**
   malloc_heap_create; the outcomes of its two calls to malloc are parameters, start the region's address. The
   code does not ask whether the region has room for a header; the heap is valid exactly when it has.
   */
  method MallocHeapCreate(headerLen: nat, mem: array<Byte>, start: nat, len: nat, heapOk: bool, startOk: bool)
    returns (heap: Heap?)
    requires 0 < headerLen && start + len <= mem.Length < TWO_64
    ensures heap != null <==> heapOk && startOk
    ensures heap != null ==> fresh(heap) && heap.mem == mem && heap.totalSize == len && fresh(heap.elems)
    ensures heap != null ==> (heap.Valid() <==> headerLen <= len)
    ensures heap != null ==>
      Init(Config(headerLen, start, len, mem.Length), State(Snapshot(heap), map[])) && heap.headerLen == headerLen
  {
    if !heapOk || !startOk {
      return null;
    }
    heap := new Heap(headerLen, mem, len);
    var elem := new Elem(start);
    elem.Init(len);
    ghost var v := [Block(start, len, false)];
    assert BlockOf(elem) == v[0] && heap.Valid();
    InsertFirst(heap, elem, v);
    assert Snapshot(heap) == Store(v, mem[..], 0);
  }

  /** Makes one element the whole heap; v is the view this leaves. */
  method InsertFirst(heap: Heap, elem: Elem, ghost v: seq<Block>)
    requires heap.Valid() && heap.elems == [] && v == [BlockOf(elem)] && elem.state == ElemFree
    requires elem.addr + elem.size <= heap.mem.Length
    modifies heap`first, heap`last, heap`elems, heap`freeHead, elem
    ensures heap.elems == [elem] && heap.View() == v
    ensures heap.Valid() <==> heap.headerLen <= v[0].size
  {
    FirstInsert(BlockOf(elem), elem);
    heap.Insert(elem);
    assert v[0 := v[0].(busy := false)] == v;
    heap.FreeListInsert(elem, 0, v);
    OneBlockOrdered(v[0], heap.headerLen, heap.mem.Length);
  }

  lemma {:induction false} FirstInsert(b: Block, elem: Elem)
    ensures InsertBlock([], b) == [b] && InsertAt([], 0, elem) == [elem] && InsertIndex([], b.addr) == 0
  {
  }

  lemma {:induction false} OneBlockOrdered(b: Block, header: nat, limit: nat)
    ensures Ordered([b], header, limit) <==> header <= b.size && b.End() <= limit
  {
    assert [b][0] == b;
  }

  /** The element that a heap_alloc will carve, if any: a caller can tell before the call. */
  function Chosen(heap: Heap, size: nat, align: nat): Elem?
    requires RoundedAlign(align) > 0
    reads heap`freeHead
    reads set c, i | 0 <= c < |heap.freeHead| && 0 <= i < |heap.freeHead[c]| :: heap.freeHead[c][i]
  {
    if size == 0 then null
    else
      FirstHolder(heap.freeHead, FreeListIndex(CacheLineRoundup(size)), CacheLineRoundup(size), RoundedAlign(align),
                  heap.headerLen)
  }

  /** Whether an element that can hold a request keeps a whole header in front of it. */
  predicate LeavesRoom(e: Elem, size: nat, align: nat, header: nat)
    requires align > 0 && Holds(e, size, align, header)
    reads e`size
  {
    e.addr + header <= ElemStart(e.addr, e.size, size, align, header).value
  }

  /** What a caller can ask before a heap_alloc to know that the heap comes out intact. */
  predicate KeepsHeap(heap: Heap, size: nat, align: nat)
    requires RoundedAlign(align) > 0
    reads heap`freeHead
    reads set c, i | 0 <= c < |heap.freeHead| && 0 <= i < |heap.freeHead[c]| :: heap.freeHead[c][i]
    reads Chosen(heap, size, align)
  {
    Chosen(heap, size, align) != null ==>
      && Holds(Chosen(heap, size, align), CacheLineRoundup(size), RoundedAlign(align), heap.headerLen)
      && LeavesRoom(Chosen(heap, size, align), CacheLineRoundup(size), RoundedAlign(align), heap.headerLen)
  }

  /** Whether carving the request out of block k of the heap keeps a whole header in front. */
  ghost predicate RoomLeft(header: nat, v: seq<Block>, k: nat, r: Request) {
    Holder(header, v, k, r) && v[k].addr + header <= StartIn(header, v, k, r)
  }

  /** The chosen element is a free element of the heap that can hold the request. */
  lemma {:induction false} ChosenHolds(heap: Heap, size: nat, align: nat) returns (k: nat)
    requires heap.Valid() && RoundedAlign(align) > 0 && Chosen(heap, size, align) != null
    ensures k < |heap.elems| && heap.elems[k] == Chosen(heap, size, align) && heap.elems[k].state == ElemFree
    ensures Holds(heap.elems[k], CacheLineRoundup(size), RoundedAlign(align), heap.headerLen)
    ensures Holder(heap.headerLen, heap.View(), k, Rounded(size, align))
    ensures KeepsHeap(heap, size, align) <==> RoomLeft(heap.headerLen, heap.View(), k, Rounded(size, align))
  {
    var b, j := FirstHolderMeans(heap.freeHead, FreeListIndex(CacheLineRoundup(size)), CacheLineRoundup(size),
                                 RoundedAlign(align), heap.headerLen);
    k := Listed(heap, b, j);
  }

  /** Where the chosen element, if any, is, on the blocks alone. */
  lemma {:induction false} ChosenPlace(heap: Heap, size: nat, align: nat, before: Store) returns (k: nat)
    requires heap.Valid() && RoundedAlign(align) > 0 && before.blocks == heap.View()
    ensures Chosen(heap, size, align) == null ==> KeepsHeap(heap, size, align)
    ensures Chosen(heap, size, align) != null ==>
      && k < |heap.elems| && heap.elems[k] == Chosen(heap, size, align) && heap.elems[k].state == ElemFree
      && Holder(heap.headerLen, before.blocks, k, Rounded(size, align))
      && (KeepsHeap(heap, size, align) <==> RoomLeft(heap.headerLen, before.blocks, k, Rounded(size, align)))
  {
    k := 0;
    if Chosen(heap, size, align) != null {
      k := ChosenHolds(heap, size, align);
    }
  }

  /** The search of heap_alloc, and where what it finds is in the list. */
  method FindChosen(heap: Heap, size: nat, align: nat, ghost chosen: Elem?, ghost before: Store, ghost keeps: bool)
    returns (elem: Elem?, ghost k: nat)
    requires heap.Valid() && 0 < size
    requires IsPow2(RoundedAlign(align)) && RoundedAlign(align) > 0 && HighEnough(heap, RoundedAlign(align))
    requires chosen == Chosen(heap, size, align) && keeps == KeepsHeap(heap, size, align) && before == Snapshot(heap)
    ensures elem == chosen && (elem == null <==> !CanServe(heap.headerLen, before.blocks, Rounded(size, align)))
    ensures before == Snapshot(heap) && (elem == null ==> keeps)
    ensures elem != null ==>
      && k < |heap.elems| && heap.elems[k] == elem && elem.state == ElemFree
      && Holder(heap.headerLen, before.blocks, k, Rounded(size, align))
      && (keeps <==> RoomLeft(heap.headerLen, before.blocks, k, Rounded(size, align)))
  {
    k := ChosenPlace(heap, size, align, before);
    elem := FindSuitable(heap, CacheLineRoundup(size), RoundedAlign(align));
    assert heap.View() == before.blocks;
  }

  /**
   heap_alloc; k is where the chosen element is. The heap comes out intact exactly when nothing was chosen or what
   is left of the chosen element keeps room for its header.
   */
  method HeapAlloc(heap: Heap, size: nat, align: nat) returns (elem: Elem?, data: nat, ghost k: nat)
    requires heap.Valid() && size < TWO_64 && align < TWO_64
    requires IsPow2(RoundedAlign(align)) && RoundedAlign(align) > 0 && HighEnough(heap, RoundedAlign(align))
    modifies heap`last, heap`elems, heap`freeHead, heap`allocCount, heap.elems
    ensures elem == null <==> old(Chosen(heap, size, align)) == null
    ensures elem == null <==>
      size == 0 || !CanServe(heap.headerLen, old(heap.View()), Rounded(size, align))
    ensures elem == null ==> data == 0 && unchanged(heap) && unchanged(old(heap.elems))
    ensures heap.Valid() <==> old(KeepsHeap(heap, size, align))
    ensures elem != null ==>
      && k < |old(heap.elems)| && old(heap.elems)[k] == old(Chosen(heap, size, align))
      && Carved(heap, old(Snapshot(heap)), old(heap.elems), elem, data, k, Rounded(size, align))
    ensures elem != null && heap.Valid() ==> fresh(elem)
  {
    ghost var before, keeps := Snapshot(heap), KeepsHeap(heap, size, align);
    elem, data, k := null, 0, 0;
    if size == 0 {
      assert keeps;
      return;
    }
    elem, k := FindChosen(heap, size, align, Chosen(heap, size, align), before, keeps);
    if elem != null {
      elem, data := AllocFound(heap, elem, Rounded(size, align), k, before);
    }
  }

  /** What a successful allocation leaves and returns. */
  ghost predicate Carved(heap: Heap, before: Store, list: seq<Elem>, elem: Elem, data: nat, k: nat, r: Request)
    reads heap, heap.elems, heap.mem, elem
  {
    && Holder(heap.headerLen, before.blocks, k, r)
    && data == elem.addr + heap.headerLen == DataIn(heap.headerLen, before.blocks, k, r)
    && (heap.Valid() <==> RoomLeft(heap.headerLen, before.blocks, k, r))
    && (heap.Valid() ==>
          && k < |list| && heap.elems == InsertAt(list, k + 1, elem) && elem.state == ElemBusy
          && Serves(data, elem.addr + elem.size, r)
          && AllocFrom(heap.headerLen, before, k, r, Snapshot(heap)))
  }

  method AllocFound(heap: Heap, elem: Elem, r: Request, ghost k: nat, ghost before: Store)
    returns (newElem: Elem, data: nat)
    requires heap.Valid() && k < |heap.elems| && heap.elems[k] == elem && elem.state == ElemFree
    requires IsPow2(r.align) && r.align > 0 && HighEnough(heap, r.align)
    requires before == Snapshot(heap) && Holder(heap.headerLen, before.blocks, k, r)
    modifies heap`last, heap`elems, heap`freeHead, heap`allocCount, heap.elems
    ensures Carved(heap, before, old(heap.elems), newElem, data, k, r)
    ensures heap.Valid() ==> fresh(newElem)
  {
    assert forall i :: 0 <= i < |heap.elems| ==> heap.elems[i] as object != heap.mem;
    heap.ElemInside(elem, k);
    HolderServes(heap.headerLen, before.blocks, k, r);
    newElem := heap.Alloc(elem, r.size, r.align, k);
    if heap.Valid() {
      InsertedAt(old(heap.elems), k + 1, newElem);
      AllocBlockAt(before.blocks, k, newElem.addr);
    }
    data := newElem.addr + heap.headerLen;
    CountAlloc(heap, newElem, data, k, r, before, old(heap.elems));
  }

  method CountAlloc(heap: Heap, elem: Elem, ghost data: nat, ghost k: nat, ghost r: Request,
      ghost before: Store, ghost list: seq<Elem>)
    requires Holder(heap.headerLen, before.blocks, k, r) && elem.addr == StartIn(heap.headerLen, before.blocks, k, r)
    requires data == elem.addr + heap.headerLen
    requires Serves(DataIn(heap.headerLen, before.blocks, k, r), before.blocks[k].End(), r)
    requires heap.Valid() <==> RoomLeft(heap.headerLen, before.blocks, k, r)
    requires heap.Valid() ==> k < |list| && heap.elems == InsertAt(list, k + 1, elem) && elem.state == ElemBusy
    requires heap.Valid() ==> elem.addr <= elem.addr + elem.size == before.blocks[k].End()
    requires heap.Valid() ==> heap.View() == AllocBlock(before.blocks, k, elem.addr)
    requires heap.mem[..] == before.bytes && heap.allocCount == before.count
    modifies heap`allocCount
    ensures Carved(heap, before, list, elem, data, k, r)
  {
    heap.allocCount := Incremented(heap.allocCount);
  }

  // ----- a request that fits a created heap exactly

  /** A region that the header and the data of a request fill exactly, the data being aligned as asked. */
  ghost predicate ExactRegion(header: nat, start: nat, len: nat, r: Request) {
    && 0 < header && len == header + r.size && start + len < TWO_64
    && IsPow2(r.align) && r.align > 0 && r.align + header <= start && (start + header) % r.align == 0
  }

  /** The one block can hold the request, but only at its own address. */
  lemma {:induction false} ExactHolder(header: nat, v: seq<Block>, start: nat, len: nat, r: Request)
    requires v == [Block(start, len, false)] && ExactRegion(header, start, len, r)
    ensures Holder(header, v, 0, r) && DataIn(header, v, 0, r) == start + header && !RoomLeft(header, v, 0, r)
  {
    ExactFitLeavesNothing(start, r.size, r.align, header);
  }

  /** The request on a heap that is one free block of this region. */
  method AllocExact(heap: Heap, header: nat, start: nat, len: nat, size: nat, align: nat, ghost r: Request)
    returns (data: nat)
    requires heap.Valid() && heap.headerLen == header && heap.View() == [Block(start, len, false)]
    requires 0 < size && size < TWO_64 && align < TWO_64 && r == Rounded(size, align)
    requires ExactRegion(header, start, len, r)
    modifies heap`last, heap`elems, heap`freeHead, heap`allocCount, heap.elems
    ensures data == start + header && !heap.Valid()
  {
    ghost var v := heap.View();
    ExactHolder(header, v, start, len, r);
    OneBlockHigh(heap, header, start, len, r);
    var elem, at, k := HeapAlloc(heap, size, align);
    data := at;
  }

  lemma {:induction false} OneBlockHigh(heap: Heap, header: nat, start: nat, len: nat, r: Request)
    requires heap.View() == [Block(start, len, false)] && heap.headerLen == header
    requires ExactRegion(header, start, len, r)
    ensures HighEnough(heap, r.align)
  {
    assert |heap.elems| == |heap.View()| == 1;
    assert heap.View()[0] == BlockOf(heap.elems[0]);
  }

  /**
   A request whose rounded size, with a header, is the whole region of a created heap is served, and the heap is no
   longer one afterwards.
   */
  method ExactFitSpoils(headerLen: nat, mem: array<Byte>, start: nat, len: nat, size: nat, align: nat,
      ghost r: Request)
    returns (heap: Heap?, data: nat)
    requires 0 < size && size < TWO_64 && align < TWO_64 && start + len <= mem.Length < TWO_64
    requires r == Rounded(size, align) && ExactRegion(headerLen, start, len, r)
    ensures heap != null && fresh(heap) && heap.headerLen == headerLen && heap.mem == mem && heap.totalSize == len
    ensures data == start + headerLen && !heap.Valid()
  {
    heap := MallocHeapCreate(headerLen, mem, start, len, true, true);
    data := AllocExact(heap, headerLen, start, len, size, align, r);
  }

  /** Region and request of SizeClass.ExactFitExample: 4160 bytes at 4096, and 4096 bytes of them asked for. */
  method ExactFitHeap(mem: array<Byte>) returns (heap: Heap?, data: nat)
    requires 4096 + 4160 <= mem.Length < TWO_64
    ensures heap != null && fresh(heap) && heap.headerLen == 64 && heap.mem == mem && heap.totalSize == 4160
    ensures data == 4160 && !heap.Valid()
  {
    assert Rounded(4096, 64) == Request(4096, 64);
    assert 64 == Pow2(6);
    heap, data := ExactFitSpoils(64, mem, 4096, 4160, 4096, 64, Request(4096, 64));
  }

  /** heap_free; elem is what malloc_elem_from_data makes of the pointer. */
  method HeapFree(heap: Heap, elem: Elem?, ghost k: nat)
    requires elem != null ==> heap.Valid() && k < |heap.elems| && heap.elems[k] == elem && elem.state == ElemBusy
    modifies heap`last, heap`elems, heap`freeHead, heap`allocCount, heap.mem, heap.elems
    ensures elem == null ==> unchanged(heap) && unchanged(heap.elems) && unchanged(heap.mem)
    ensures elem != null ==> heap.Valid() && FreeAt(heap.headerLen, old(Snapshot(heap)), k, Snapshot(heap))
    ensures elem != null ==> heap.elems == old(heap.Remaining(k))
  {
    if elem != null {
      var _ := heap.Free(elem, k);
    }
  }

  // ----- freeing what was just allocated

  /**
   Freeing the element just allocated gives back the old list, element by element, with the same free lists up to
   the order within a list, exactly when the element had no free neighbour to its right that it could have been
   merged with; in a heap whose free neighbours are all merged that is always so.
   */
  method AllocThenFree(heap: Heap, elem: Elem, size: nat, align: nat, ghost k: nat)
    requires heap.Valid() && k < |heap.elems| && heap.elems[k] == elem && elem.state == ElemFree
    requires IsPow2(align) && align > 0 && HighEnough(heap, align) && Holds(elem, size, align, heap.headerLen)
    requires RoomLeft(heap.headerLen, heap.View(), k, Request(size, align))
    modifies heap, heap.mem, heap.elems
    ensures heap.Valid()
    ensures heap.View() == old(heap.View()) <==> !old(JoinsNext(heap.View(), k))
    ensures !old(JoinsNext(heap.View(), k)) ==>
      && heap.elems == old(heap.elems)
      && forall b, e :: 0 <= b < |heap.freeHead| ==> (e in heap.freeHead[b] <==> e in old(heap.freeHead[b]))
    ensures old(Coalesced(heap.View())) ==> heap.View() == old(heap.View())
  {
    ghost var v, list, lists := heap.View(), heap.elems, heap.freeHead;
    if Coalesced(v) {
      CoalescedNoNext(v, k);
    }
    heap.ElemInside(elem, k);
    var newElem := heap.Alloc(elem, size, align, k);
    TakeBack(heap, newElem, k, v, list, lists);
  }

  /** Frees the element that an allocation put behind element k; v, list and lists are from before it. */
  method TakeBack(heap: Heap, newElem: Elem, ghost k: nat, ghost v: seq<Block>, ghost list: seq<Elem>,
      ghost lists: seq<seq<Elem>>)
    requires k < |v| == |list| && !v[k].busy && Indexed(lists, list, v, {})
    requires heap.Valid() && heap.elems == InsertAt(list, k + 1, newElem) && newElem.state == ElemBusy
    requires v[k].addr <= newElem.addr <= v[k].End() && heap.View() == AllocBlock(v, k, newElem.addr)
    modifies heap, heap.mem, newElem, list
    ensures heap.Valid() && (heap.View() == v <==> !JoinsNext(v, k))
    ensures !JoinsNext(v, k) ==>
      heap.elems == list && forall b, e :: 0 <= b < |heap.freeHead| ==> (e in heap.freeHead[b] <==> e in lists[b])
  {
    InsertedThenRemoved(list, k + 1, newElem);
    ghost var kept := heap.Remaining(k + 1);
    KeptAfterAlloc(heap, k, newElem, v, list);
    var _ := heap.Free(newElem, k + 1);
    FreeUndoesAlloc(v, k, newElem.addr);
    if !JoinsNext(v, k) {
      assert heap.elems == kept == list && heap.View() == v;
      SameMembers(lists, heap.freeHead, list, v);
    }
  }

  lemma {:induction false} KeptAfterAlloc(heap: Heap, k: nat, newElem: Elem, v: seq<Block>, list: seq<Elem>)
    requires k < |v| == |list| && !v[k].busy && v[k].addr <= newElem.addr <= v[k].End()
    requires heap.elems == InsertAt(list, k + 1, newElem) && heap.View() == AllocBlock(v, k, newElem.addr)
    ensures k + 1 < |heap.elems| && heap.elems[k + 1] == newElem
    ensures !JoinsNext(v, k) ==> heap.Remaining(k + 1) == list
  {
    InsertedThenRemoved(list, k + 1, newElem);
    if !JoinsNext(v, k) {
      NeighboursAfterAlloc(v, k, newElem.addr);
    }
  }

  lemma {:induction false} NeighboursAfterAlloc(v: seq<Block>, k: nat, start: nat)
    requires k < |v| && !v[k].busy && v[k].addr <= start <= v[k].End() && !JoinsNext(v, k)
    ensures var w := AllocBlock(v, k, start);
      k + 1 < |w| && !JoinsNext(w, k + 1) && JoinsPrev(w, k + 1) && FreeBlock(w, k + 1) == v
  {
    FreeUndoesAlloc(v, k, start);
    AllocBlockAt(v, k, start);
  }

  lemma {:induction false} InsertedThenRemoved(list: seq<Elem>, m: nat, e: Elem)
    requires m <= |list|
    ensures var w := InsertAt(list, m, e);
      m < |w| && w[m] == e && w[..m] + w[m + 1..] == list && forall i :: 0 <= i < |w| ==> w[i] == e || w[i] in list
  {
    InsertedAt(list, m, e);
  }

  /** The sizes and states decide which element is on which list. */
  lemma {:induction false} SameMembers(lists: seq<seq<Elem>>, lists': seq<seq<Elem>>, elems: seq<Elem>, v: seq<Block>)
    requires |v| == |elems| && Indexed(lists, elems, v, {}) && Indexed(lists', elems, v, {})
    ensures forall b, e :: 0 <= b < |lists| ==> (e in lists[b] <==> e in lists'[b])
  {
    forall b, e | 0 <= b < |lists| ensures e in lists[b] <==> e in lists'[b] {
      if e in elems {
        var i :| 0 <= i < |elems| && elems[i] == e;
      }
    }
  }

  // ----- calls as steps of a run

  /** A successful call is a step of a run of the heap that has the region from base on. */
  lemma {:induction false} AllocCallIsStep(c: Config, s: State, r: Request, k: nat, data: nat, after: Store)
    requires AllocFrom(c.header, s.store, k, r, after) && data == DataIn(c.header, s.store.blocks, k, r)
    requires IsPow2(r.align) && r.align + c.header <= c.base
    ensures Next(c, s, Alloc(r), State(after, s.live[data := r]))
  {
    var s' := State(after, s.live[data := r]);
    assert AllocFrom(c.header, s.store, k, r, s'.store);
    assert Holder(c.header, s.store.blocks, k, r);
  }

  /** A refused call is a step that changes nothing. */
  lemma {:induction false} RefusalIsStep(c: Config, s: State, r: Request)
    requires !CanServe(c.header, s.store.blocks, r) && IsPow2(r.align) && r.align + c.header <= c.base
    ensures Next(c, s, Alloc(r), s)
  {
  }

  lemma {:induction false} FreeIsNext(c: Config, s: State, k: nat, data: nat, after: Store)
    requires FreeAt(c.header, s.store, k, after) && data == s.store.blocks[k].addr + c.header && data in s.live
    ensures Next(c, s, Free(data), State(after, s.live - {data}))
  {
    var s' := State(after, s.live - {data});
    assert FreeAt(c.header, s.store, k, s'.store);
  }

  /** A free through the data pointer of a busy block, which belongs to a live request, is a step. */
  lemma {:induction false} FreeCallIsStep(c: Config, s: State, k: nat, data: nat, after: Store)
    requires GoodConfig(c) && Inv(c, s) && FreeAt(c.header, s.store, k, after)
    requires data == s.store.blocks[k].addr + c.header
    ensures data in s.live && Next(c, s, Free(data), State(after, s.live - {data}))
  {
    assert BusyAt(c.header, s.store.blocks, k, data);
    FreeIsNext(c, s, k, data, after);
  }
}
