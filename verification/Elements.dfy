/** Heap elements in memory: the doubly linked, address-ordered list and what it denotes. */
module Elements {
  import opened Blocks

  datatype ElemState = ElemFree | ElemBusy

  /** struct malloc_elem: the header at address addr. */
  class Elem {
    const addr: nat
    var prev: Elem?
    var next: Elem?
    var size: nat
    var state: ElemState

    /** Header memory at addr; its fields hold anything until Init. */
    constructor (addr: nat)
      ensures this.addr == addr
    {
      this.addr := addr;
    }

    /** malloc_elem_init */
    method Init(size: nat)
      modifies this
      ensures prev == null && next == null && state == ElemFree && this.size == size
    {
      prev := null;
      next := null;
      state := ElemFree;
      this.size := size;
    }
  }

  /** Pointers compare as addresses, and NULL as zero. */
  function AddrOf(e: Elem?): nat {
    if e == null then 0 else e.addr
  }

  function BlockOf(e: Elem): Block
    reads e`size, e`state
  {
    Block(e.addr, e.size, e.state == ElemBusy)
  }

  ghost function ViewOf(elems: seq<Elem>): (v: seq<Block>)
    reads elems`size, elems`state
    ensures |v| == |elems|
    ensures forall i :: 0 <= i < |elems| ==> v[i] == BlockOf(elems[i])
  {
    if elems == [] then [] else ViewOf(elems[..|elems| - 1]) + [BlockOf(elems[|elems| - 1])]
  }

  function NextOf(elems: seq<Elem>, i: nat): Elem? {
    if i + 1 < |elems| then elems[i + 1] else null
  }

  function PrevOf(elems: seq<Elem>, i: nat): Elem? {
    if 0 < i <= |elems| then elems[i - 1] else null
  }

  ghost predicate Ends(first: Elem?, last: Elem?, elems: seq<Elem>) {
    first == (if elems == [] then null else elems[0]) && last == (if elems == [] then null else elems[|elems| - 1])
  }

  ghost predicate Distinct(elems: seq<Elem>) {
    forall i, j :: 0 <= i < j < |elems| ==> elems[i] != elems[j]
  }

  lemma {:induction false} OrderedDistinct(elems: seq<Elem>, header: nat, limit: nat)
    requires Ordered(ViewOf(elems), header, limit) && header > 0
    ensures Distinct(elems)
    ensures forall i, j :: 0 <= i < j < |elems| ==> elems[i].addr < elems[j].addr
  {
    var v := ViewOf(elems);
    forall i, j | 0 <= i < j < |elems| ensures elems[i].addr < elems[j].addr {
      assert v[i].End() <= v[j].addr;
    }
  }

  // ----- surgery on the list

  /** A list with one element put in at position m, place by place. */
  lemma {:induction false} InsertedAt(elems: seq<Elem>, m: nat, elem: Elem)
    requires m <= |elems|
    ensures var w := elems[..m] + [elem] + elems[m..];
      && |w| == |elems| + 1 && w[m] == elem
      && (forall i :: 0 <= i < m ==> w[i] == elems[i])
      && (forall i :: m < i < |w| ==> w[i] == elems[i - 1])
  {
  }

  /** A list with the element at position m left out, place by place. */
  lemma {:induction false} RemovedAt(elems: seq<Elem>, m: nat)
    requires m < |elems|
    ensures var w := elems[..m] + elems[m + 1..];
      && |w| == |elems| - 1
      && (forall i :: 0 <= i < m ==> w[i] == elems[i])
      && (forall i :: m <= i < |w| ==> w[i] == elems[i + 1])
  {
  }

  ghost predicate NextLinked(elems: seq<Elem>)
    reads elems`next
  {
    forall i {:trigger elems[i].next} :: 0 <= i < |elems| ==> elems[i].next == NextOf(elems, i)
  }

  ghost predicate PrevLinked(elems: seq<Elem>)
    reads elems`prev
  {
    forall i {:trigger elems[i].prev} :: 0 <= i < |elems| ==> elems[i].prev == PrevOf(elems, i)
  }

  /** Makes elem point forward to what followed position m - 1, and that position's element to elem. */
  method LinkForward(ghost elems: seq<Elem>, ghost m: nat, elem: Elem, prevElem: Elem?, nextElem: Elem?)
    requires NextLinked(elems) && PrevLinked(elems) && Distinct(elems) && m <= |elems| && elem !in elems
    requires prevElem == PrevOf(elems, m) && nextElem == (if m < |elems| then elems[m] else null)
    modifies elem`next, elems`next
    ensures NextLinked(elems[..m] + [elem] + elems[m..])
    ensures PrevLinked(elems)
    ensures ViewOf(elems) == old(ViewOf(elems)) && BlockOf(elem) == old(BlockOf(elem))
  {
    elem.next := nextElem;
    if prevElem != null {
      prevElem.next := elem;
    }
    assert ViewOf(elems) == old(ViewOf(elems));
    ghost var w := elems[..m] + [elem] + elems[m..];
    InsertedAt(elems, m, elem);
    forall i | 0 <= i < |w| ensures w[i].next == NextOf(w, i) {
      if i + 1 < m {
        assert w[i] != prevElem;
      } else if i > m {
        assert w[i] == elems[i - 1] && w[i] != prevElem;
      }
    }
  }

  /** The same for the backward links. */
  method LinkBackward(ghost elems: seq<Elem>, ghost m: nat, elem: Elem, prevElem: Elem?, nextElem: Elem?)
    requires PrevLinked(elems) && Distinct(elems) && m <= |elems| && elem !in elems
    requires prevElem == PrevOf(elems, m) && nextElem == (if m < |elems| then elems[m] else null)
    requires NextLinked(elems[..m] + [elem] + elems[m..])
    modifies elem`prev, elems`prev
    ensures PrevLinked(elems[..m] + [elem] + elems[m..])
    ensures NextLinked(elems[..m] + [elem] + elems[m..])
    ensures ViewOf(elems) == old(ViewOf(elems)) && BlockOf(elem) == old(BlockOf(elem))
  {
    ghost var w := elems[..m] + [elem] + elems[m..];
    elem.prev := prevElem;
    if nextElem != null {
      nextElem.prev := elem;
    }
    assert NextLinked(w);
    assert ViewOf(elems) == old(ViewOf(elems));
    InsertedAt(elems, m, elem);
    forall i | 0 <= i < |w| ensures w[i].prev == PrevOf(w, i) {
      if i < m {
        assert w[i] != nextElem;
      } else if i > m + 1 {
        assert w[i] == elems[i - 1] && w[i] != nextElem;
      }
    }
  }

  /** elems[k] skips the element after it. */
  method SkipForward(ghost elems: seq<Elem>, ghost k: nat, elem1: Elem, next: Elem?)
    requires NextLinked(elems) && Distinct(elems) && k + 1 < |elems| && elems[k] == elem1
    requires next == NextOf(elems, k + 1) && PrevLinked(elems[..k + 1] + elems[k + 2..])
    modifies elem1`next
    ensures NextLinked(elems[..k + 1] + elems[k + 2..])
    ensures PrevLinked(elems[..k + 1] + elems[k + 2..])
    ensures ViewOf(elems) == old(ViewOf(elems))
  {
    ghost var w := elems[..k + 1] + elems[k + 2..];
    elem1.next := next;
    assert PrevLinked(w);
    assert ViewOf(elems) == old(ViewOf(elems));
    RemovedAt(elems, k + 1);
    forall i | 0 <= i < |w| ensures w[i].next == NextOf(w, i) {
      if i < k {
        assert w[i] != elem1;
      } else if i > k {
        assert w[i] == elems[i + 1] && w[i] != elem1;
      }
    }
  }

  method SkipBackward(ghost elems: seq<Elem>, ghost k: nat, elem1: Elem, next: Elem?)
    requires NextLinked(elems) && PrevLinked(elems) && Distinct(elems) && k + 1 < |elems| && elems[k] == elem1
    requires next == NextOf(elems, k + 1)
    modifies elems`prev
    ensures PrevLinked(elems[..k + 1] + elems[k + 2..])
    ensures NextLinked(elems)
    ensures ViewOf(elems) == old(ViewOf(elems))
  {
    if next != null {
      next.prev := elem1;
    }
    assert NextLinked(elems);
    assert ViewOf(elems) == old(ViewOf(elems));
    ghost var w := elems[..k + 1] + elems[k + 2..];
    RemovedAt(elems, k + 1);
    forall i | 0 <= i < |w| ensures w[i].prev == PrevOf(w, i) {
      if i <= k {
        assert w[i] != next;
      } else if i > k + 1 {
        assert w[i] == elems[i + 1] && w[i] != next;
      }
    }
  }

  // ----- changes to the list, seen as changes to its blocks

  /** The links of a new element and its neighbours. */
  method LinkIn(ghost elems: seq<Elem>, ghost m: nat, elem: Elem, prevElem: Elem?, nextElem: Elem?)
    requires NextLinked(elems) && PrevLinked(elems) && Distinct(elems) && m <= |elems| && elem !in elems
    requires prevElem == PrevOf(elems, m) && nextElem == (if m < |elems| then elems[m] else null)
    modifies elem`prev, elem`next, elems`prev, elems`next
    ensures NextLinked(InsertAt(elems, m, elem)) && PrevLinked(InsertAt(elems, m, elem))
    ensures ViewOf(InsertAt(elems, m, elem)) == old(ViewOf(elems)[..m] + [BlockOf(elem)] + ViewOf(elems)[m..])
  {
    LinkForward(elems, m, elem, prevElem, nextElem);
    LinkBackward(elems, m, elem, prevElem, nextElem);
    InsertedView(elems, m, elem, ViewOf(elems));
  }

  /** Addresses below position m are lower, those from m on are higher. */
  ghost predicate Divides(elems: seq<Elem>, m: nat, addr: nat) {
    && m <= |elems|
    && (forall j :: 0 <= j < m ==> elems[j].addr < addr)
    && (forall j :: m <= j < |elems| ==> addr < elems[j].addr)
  }

  lemma {:induction false} SplitAddresses(elems: seq<Elem>, v: seq<Block>, elem: Elem, header: nat, limit: nat)
    requires v == ViewOf(elems) && Ordered(v, header, limit) && 0 < header <= elem.size
    requires Clear(v, BlockOf(elem))
    ensures Divides(elems, InsertIndex(v, elem.addr), elem.addr)
  {
    InsertIndexSplits(v, elem.addr, header, limit);
    forall j | 0 <= j < |elems| ensures elems[j].addr != elem.addr && v[j].addr == elems[j].addr {
      assert BlockOf(elem).End() <= v[j].addr || v[j].End() <= elem.addr;
    }
  }

  function InsertAt(elems: seq<Elem>, m: nat, elem: Elem): seq<Elem>
    requires m <= |elems|
  {
    elems[..m] + [elem] + elems[m..]
  }

  /** The view after one element changed. */
  lemma {:induction false} ChangedView(elems: seq<Elem>, k: nat, v: seq<Block>, b: Block)
    requires k < |elems| == |v|
    requires forall i :: 0 <= i < |elems| && i != k ==> v[i] == BlockOf(elems[i])
    requires b == BlockOf(elems[k])
    ensures ViewOf(elems) == v[k := b]
  {
  }

  lemma {:induction false} InsertDistinct(elems: seq<Elem>, m: nat, elem: Elem)
    requires Distinct(elems) && m <= |elems| && elem !in elems
    ensures Distinct(InsertAt(elems, m, elem))
  {
    InsertedAt(elems, m, elem);
  }

  lemma {:induction false} EndsAfterInsert(first: Elem?, last: Elem?, elems: seq<Elem>, k: nat, elem: Elem)
    requires Ends(first, last, elems) && k < |elems|
    ensures Ends(first, if k + 1 == |elems| then elem else last, InsertAt(elems, k + 1, elem))
  {
    InsertedAt(elems, k + 1, elem);
  }

  lemma {:induction false} EndsAfterRemove(first: Elem?, last: Elem?, elems: seq<Elem>, k: nat)
    requires Ends(first, last, elems) && k + 1 < |elems|
    ensures Ends(first, if k + 2 == |elems| then elems[k] else last, elems[..k + 1] + elems[k + 2..])
  {
    RemovedAt(elems, k + 1);
  }

  lemma {:induction false} RemoveDistinct(elems: seq<Elem>, m: nat)
    requires Distinct(elems) && m < |elems|
    ensures Distinct(elems[..m] + elems[m + 1..])
  {
    RemovedAt(elems, m);
  }

  /** Block k cut in two at start; the high part is free. */
  function SplitView(v: seq<Block>, k: nat, start: nat): seq<Block>
    requires k < |v| && v[k].addr <= start <= v[k].End()
  {
    v[..k] + [Block(v[k].addr, start - v[k].addr, v[k].busy), Block(start, v[k].End() - start, false)] + v[k + 1..]
  }

  lemma {:induction false} SplitMarked(v: seq<Block>, k: nat, start: nat)
    requires k < |v| && v[k].addr <= start <= v[k].End() && !v[k].busy
    ensures AllocBlock(v, k, start)
         == SplitView(v, k, start)[k + 1 := SplitView(v, k, start)[k + 1].(busy := true)]
  {
  }

  lemma {:induction false} SplitViewIs(v: seq<Block>, k: nat, start: nat)
    requires k < |v| && v[k].addr <= start <= v[k].End()
    ensures SplitView(v, k, start)
         == (v[..k + 1] + [Block(start, v[k].End() - start, false)] + v[k + 1..])
              [k := Block(v[k].addr, start - v[k].addr, v[k].busy)]
  {
  }

  /** A block that has grown over its right neighbour, and the neighbour dropped. */
  lemma {:induction false} GrownView(v: seq<Block>, k: nat)
    requires k + 1 < |v|
    ensures var w := v[k := Block(v[k].addr, v[k].size + v[k + 1].size, v[k].busy)];
      w[..k + 1] + w[k + 2..] == JoinNext(v, k)
  {
  }

  /** The view without one element, the others being what they were. */
  lemma {:induction false} RemovedView(elems: seq<Elem>, m: nat, v: seq<Block>)
    requires m < |elems| == |v| && ViewOf(elems) == v
    ensures ViewOf(elems[..m] + elems[m + 1..]) == v[..m] + v[m + 1..]
  {
    RemovedAt(elems, m);
  }

  /** The links around an element that elems[k] has swallowed; w is the view this leaves. */
  method SkipNext(ghost elems: seq<Elem>, ghost k: nat, elem1: Elem, next: Elem?, ghost w: seq<Block>)
    requires NextLinked(elems) && PrevLinked(elems) && Distinct(elems) && k + 1 < |elems| && elems[k] == elem1
    requires next == NextOf(elems, k + 1) && w == ViewOf(elems)[..k + 1] + ViewOf(elems)[k + 2..]
    modifies elem1`next, elems`prev
    ensures PrevLinked(elems[..k + 1] + elems[k + 2..])
    ensures NextLinked(elems[..k + 1] + elems[k + 2..])
    ensures ViewOf(elems[..k + 1] + elems[k + 2..]) == w
  {
    SkipBackward(elems, k, elem1, next);
    SkipForward(elems, k, elem1, next);
    RemovedView(elems, k + 1, ViewOf(elems));
  }

  /** The view after one element was put in and the others kept what they were. */
  lemma {:induction false} InsertedView(elems: seq<Elem>, m: nat, elem: Elem, v: seq<Block>)
    requires m <= |elems| == |v| && forall i :: 0 <= i < |elems| ==> BlockOf(elems[i]) == v[i]
    ensures ViewOf(InsertAt(elems, m, elem)) == v[..m] + [BlockOf(elem)] + v[m..]
  {
    InsertedAt(elems, m, elem);
  }
}
