/**
 The heap seen as an address-ordered sequence of blocks: what inserting,
 allocating and freeing do to it, and what they keep.
 */
module Blocks {
  import opened Bits

  type Byte = b: nat | b < 256

  datatype Block = Block(addr: nat, size: nat, busy: bool) {
    function End(): nat {
      addr + size
    }
  }

  /** In address order without overlap, each with room for its header, inside the address space. */
  ghost predicate Ordered(v: seq<Block>, header: nat, limit: nat) {
    && (forall i, j :: 0 <= i < j < |v| ==> v[i].End() <= v[j].addr)
    && (forall i :: 0 <= i < |v| ==> header <= v[i].size && v[i].End() <= limit)
  }

  /** No gaps: every block ends where the next one starts. */
  ghost predicate Contiguous(v: seq<Block>) {
    forall i {:trigger v[i].End()} :: 0 <= i < |v| - 1 ==> v[i].End() == v[i + 1].addr
  }

  predicate Adjoins(v: seq<Block>, i: nat)
    requires i + 1 < |v|
  {
    v[i].End() == v[i + 1].addr
  }

  /** No two neighbouring blocks are both free. */
  ghost predicate Coalesced(v: seq<Block>) {
    forall i :: 0 <= i < |v| - 1 && Adjoins(v, i) ==> v[i].busy || v[i + 1].busy
  }

  function TotalSize(v: seq<Block>): nat {
    if v == [] then 0 else v[0].size + TotalSize(v[1..])
  }

  // ----- the operations

  /** Where a block at addr goes: behind all blocks below it. */
  function InsertIndex(v: seq<Block>, addr: nat): (k: nat)
    ensures k <= |v|
  {
    if v == [] || addr < v[0].addr then 0 else 1 + InsertIndex(v[1..], addr)
  }

  function InsertBlock(v: seq<Block>, b: Block): seq<Block> {
    v[..InsertIndex(v, b.addr)] + [b] + v[InsertIndex(v, b.addr)..]
  }

  /** The block is cut at start; the high part becomes busy. */
  function AllocBlock(v: seq<Block>, i: nat, start: nat): seq<Block>
    requires i < |v| && v[i].addr <= start <= v[i].End()
  {
    v[..i] + [Block(v[i].addr, start - v[i].addr, false), Block(start, v[i].End() - start, true)] + v[i + 1..]
  }

  /** Block i swallows its right neighbour. */
  function JoinNext(v: seq<Block>, i: nat): seq<Block>
    requires i + 1 < |v|
  {
    v[..i] + [Block(v[i].addr, v[i].size + v[i + 1].size, v[i].busy)] + v[i + 2..]
  }

  predicate JoinsNext(v: seq<Block>, i: nat)
    requires i < |v|
  {
    i + 1 < |v| && !v[i + 1].busy && Adjoins(v, i)
  }

  predicate JoinsPrev(v: seq<Block>, i: nat)
    requires i < |v|
  {
    i > 0 && !v[i - 1].busy && Adjoins(v, i - 1)
  }

  /** malloc_elem_free on the sequence: the block becomes free, then merges to the right, then to the left. */
  function FreeBlock(v: seq<Block>, i: nat): seq<Block>
    requires i < |v|
  {
    var marked := v[i := v[i].(busy := false)];
    var right := if JoinsNext(v, i) then JoinNext(marked, i) else marked;
    if JoinsPrev(v, i) then JoinNext(right, i - 1) else right
  }

  // ----- memory and the counter

  /** The bytes from ptr to ptr + dataLen are zero and all others what they were. */
  ghost predicate Zeroed(before: seq<Byte>, after: seq<Byte>, ptr: int, dataLen: int) {
    && |after| == |before|
    && forall a :: 0 <= a < |before| ==> after[a] == if ptr <= a < ptr + dataLen then 0 else before[a]
  }

  /** alloc_count is a 32-bit counter. */
  function Incremented(count: nat): nat {
    Word32(count + 1)
  }

  function Decremented(count: nat): nat {
    Word32(count - 1)
  }

  // ----- conservation

  lemma {:induction false} TotalSizeConcat(a: seq<Block>, b: seq<Block>)
    ensures TotalSize(a + b) == TotalSize(a) + TotalSize(b)
  {
    if a == [] {
      assert a + b == b;
    } else {
      assert (a + b)[1..] == a[1..] + b;
      TotalSizeConcat(a[1..], b);
    }
  }

  /** Replacing the k blocks from i on by others changes the sum by the difference. */
  lemma {:induction false} TotalSizeReplace(v: seq<Block>, i: nat, k: nat, mid: seq<Block>)
    requires i + k <= |v|
    ensures TotalSize(v[..i] + mid + v[i + k..]) == TotalSize(v) - TotalSize(v[i..i + k]) + TotalSize(mid)
  {
    assert v == v[..i] + v[i..i + k] + v[i + k..];
    TotalSizeConcat(v[..i] + v[i..i + k], v[i + k..]);
    TotalSizeConcat(v[..i], v[i..i + k]);
    TotalSizeConcat(v[..i] + mid, v[i + k..]);
    TotalSizeConcat(v[..i], mid);
  }

  lemma {:induction false} TotalSizeOne(b: Block)
    ensures TotalSize([b]) == b.size
  {
    assert [b][1..] == [];
  }

  lemma {:induction false} TotalSizeTwo(a: Block, b: Block)
    ensures TotalSize([a, b]) == a.size + b.size
  {
    assert [a, b][1..] == [b];
    TotalSizeOne(b);
  }

  /** Replacing blocks by others of the same total size conserves the sum. */
  lemma {:induction false} SpliceConserves(v: seq<Block>, i: nat, was: seq<Block>, mid: seq<Block>)
    requires i + |was| <= |v| && v[i..i + |was|] == was && TotalSize(was) == TotalSize(mid)
    ensures TotalSize(v[..i] + mid + v[i + |was|..]) == TotalSize(v)
  {
    TotalSizeReplace(v, i, |was|, mid);
  }

  lemma {:induction false} JoinConserves(v: seq<Block>, i: nat)
    requires i + 1 < |v|
    ensures TotalSize(JoinNext(v, i)) == TotalSize(v)
  {
    var joined := Block(v[i].addr, v[i].size + v[i + 1].size, v[i].busy);
    TotalSizeTwo(v[i], v[i + 1]);
    TotalSizeOne(joined);
    SpliceConserves(v, i, [v[i], v[i + 1]], [joined]);
  }

  lemma {:induction false} MarkConserves(v: seq<Block>, i: nat, b: Block)
    requires i < |v| && b.size == v[i].size
    ensures TotalSize(v[i := b]) == TotalSize(v)
  {
    TotalSizeOne(v[i]);
    TotalSizeOne(b);
    SpliceConserves(v, i, [v[i]], [b]);
    assert v[i := b] == v[..i] + [b] + v[i + 1..];
  }

  /** Allocating and freeing conserve the sum of all sizes. */
  lemma {:induction false} AllocConserves(v: seq<Block>, i: nat, start: nat)
    requires i < |v| && v[i].addr <= start <= v[i].End()
    ensures TotalSize(AllocBlock(v, i, start)) == TotalSize(v)
  {
    var low, high := Block(v[i].addr, start - v[i].addr, false), Block(start, v[i].End() - start, true);
    TotalSizeOne(v[i]);
    TotalSizeTwo(low, high);
    SpliceConserves(v, i, [v[i]], [low, high]);
  }

  lemma {:induction false} FreeConserves(v: seq<Block>, i: nat)
    requires i < |v|
    ensures TotalSize(FreeBlock(v, i)) == TotalSize(v)
  {
    var marked := v[i := v[i].(busy := false)];
    MarkConserves(v, i, v[i].(busy := false));
    if JoinsNext(v, i) {
      JoinConserves(marked, i);
      if JoinsPrev(v, i) {
        JoinConserves(JoinNext(marked, i), i - 1);
      }
    } else if JoinsPrev(v, i) {
      JoinConserves(marked, i - 1);
    }
  }

  // ----- order is kept

  /** The blocks after an allocation, one by one. */
  lemma {:induction false} AllocBlockAt(v: seq<Block>, i: nat, start: nat)
    requires i < |v| && v[i].addr <= start <= v[i].End()
    ensures var w := AllocBlock(v, i, start);
      && |w| == |v| + 1
      && w[i] == Block(v[i].addr, start - v[i].addr, false)
      && w[i + 1] == Block(start, v[i].End() - start, true)
      && (forall j :: 0 <= j < i ==> w[j] == v[j])
      && (forall j :: i + 1 < j < |w| ==> w[j] == v[j - 1])
  {
  }

  lemma {:induction false} AllocOrdered(v: seq<Block>, i: nat, start: nat, header: nat, limit: nat)
    requires Ordered(v, header, limit) && i < |v|
    requires v[i].addr + header <= start && start + header <= v[i].End()
    ensures Ordered(AllocBlock(v, i, start), header, limit)
  {
    AllocBlockAt(v, i, start);
    var w := AllocBlock(v, i, start);
    forall j, k | 0 <= j < k < |w| ensures w[j].End() <= w[k].addr {
      var j', k' := if j <= i then j else j - 1, if k <= i then k else k - 1;
      assert w[j].End() <= v[j'].End() && v[k'].addr <= w[k].addr;
      if j' < k' { assert v[j'].End() <= v[k'].addr; }
    }
  }

  lemma {:induction false} AllocContiguous(v: seq<Block>, i: nat, start: nat)
    requires Contiguous(v) && i < |v| && v[i].addr <= start <= v[i].End()
    ensures Contiguous(AllocBlock(v, i, start))
  {
    AllocBlockAt(v, i, start);
    var w := AllocBlock(v, i, start);
    forall j | 0 <= j < |w| - 1 ensures w[j].End() == w[j + 1].addr {
      if j < i {
        assert v[j].End() == v[j + 1].addr;
      } else if j > i {
        assert v[j - 1].End() == v[j].addr;
      }
    }
  }

  /** The blocks after a merge, one by one. */
  lemma {:induction false} JoinNextAt(v: seq<Block>, i: nat)
    requires i + 1 < |v|
    ensures var w := JoinNext(v, i);
      && |w| == |v| - 1
      && w[i] == Block(v[i].addr, v[i].size + v[i + 1].size, v[i].busy)
      && (forall j :: 0 <= j < i ==> w[j] == v[j])
      && (forall j :: i < j < |w| ==> w[j] == v[j + 1])
  {
  }

  lemma {:induction false} JoinOrdered(v: seq<Block>, i: nat, header: nat, limit: nat)
    requires Ordered(v, header, limit) && i + 1 < |v| && Adjoins(v, i)
    ensures Ordered(JoinNext(v, i), header, limit)
  {
    JoinNextAt(v, i);
    var w := JoinNext(v, i);
    forall j, k | 0 <= j < k < |w| ensures w[j].End() <= w[k].addr {
      var j', k' := if j < i then j else j + 1, if k <= i then k else k + 1;
      assert w[j].End() == v[j'].End() && w[k].addr == v[k'].addr;
      assert v[j'].End() <= v[k'].addr;
    }
  }

  lemma {:induction false} JoinContiguous(v: seq<Block>, i: nat)
    requires Contiguous(v) && i + 1 < |v| && Adjoins(v, i)
    ensures Contiguous(JoinNext(v, i))
  {
    JoinNextAt(v, i);
    var w := JoinNext(v, i);
    forall j | 0 <= j < |w| - 1 ensures w[j].End() == w[j + 1].addr {
      if j < i {
        assert v[j].End() == v[j + 1].addr;
      } else {
        assert v[j + 1].End() == v[j + 2].addr;
      }
    }
  }

  lemma {:induction false} MarkOrdered(v: seq<Block>, i: nat, header: nat, limit: nat)
    requires Ordered(v, header, limit) && i < |v|
    ensures Ordered(v[i := v[i].(busy := false)], header, limit)
  {
  }

  lemma {:induction false} MarkContiguous(v: seq<Block>, i: nat)
    requires Contiguous(v) && i < |v|
    ensures Contiguous(v[i := v[i].(busy := false)])
  {
    var w := v[i := v[i].(busy := false)];
    forall j | 0 <= j < |w| - 1 ensures w[j].End() == w[j + 1].addr {
      assert v[j].End() == v[j + 1].addr;
    }
  }

  lemma {:induction false} FreeOrdered(v: seq<Block>, i: nat, header: nat, limit: nat)
    requires Ordered(v, header, limit) && i < |v|
    ensures Ordered(FreeBlock(v, i), header, limit)
  {
    var marked := v[i := v[i].(busy := false)];
    MarkOrdered(v, i, header, limit);
    if JoinsNext(v, i) {
      JoinOrdered(marked, i, header, limit);
      if JoinsPrev(v, i) {
        JoinOrdered(JoinNext(marked, i), i - 1, header, limit);
      }
    } else if JoinsPrev(v, i) {
      JoinOrdered(marked, i - 1, header, limit);
    }
  }

  lemma {:induction false} FreeContiguous(v: seq<Block>, i: nat)
    requires Contiguous(v) && i < |v|
    ensures Contiguous(FreeBlock(v, i))
  {
    var marked := v[i := v[i].(busy := false)];
    MarkContiguous(v, i);
    if JoinsNext(v, i) {
      JoinContiguous(marked, i);
      if JoinsPrev(v, i) {
        JoinContiguous(JoinNext(marked, i), i - 1);
      }
    } else if JoinsPrev(v, i) {
      JoinContiguous(marked, i - 1);
    }
  }

  // ----- full coalescing

  lemma {:induction false} AllocCoalesced(v: seq<Block>, i: nat, start: nat)
    requires Coalesced(v) && i < |v| && !v[i].busy && v[i].addr <= start <= v[i].End()
    ensures Coalesced(AllocBlock(v, i, start))
  {
    var w := AllocBlock(v, i, start);
    forall j | 0 <= j < |w| - 1 && Adjoins(w, j) ensures w[j].busy || w[j + 1].busy {
      if j < i {
        assert w[j] == v[j] && w[j + 1].addr == v[j + 1].addr;
        assert Adjoins(v, j);
      } else if j > i + 1 {
        assert w[j] == v[j - 1] && w[j + 1] == v[j];
        assert Adjoins(v, j - 1);
      }
    }
  }

  /** The two merges of a free cover both sides, and cannot bring two older free blocks together. */
  lemma {:induction false} FreeCoalesced(v: seq<Block>, i: nat)
    requires Coalesced(v) && i < |v| && v[i].busy
    ensures Coalesced(FreeBlock(v, i))
  {
    var w := FreeBlock(v, i);
    var next, prev := JoinsNext(v, i), JoinsPrev(v, i);
    var lo := if prev then i - 1 else i;         // the freed block's index in w
    var hi := if next then i + 1 else i;         // the last block of v it covers
    assert |w| == |v| - (hi - lo);
    FreeBlockAt(v, i);
    forall j | 0 <= j < |w| - 1 && Adjoins(w, j) ensures w[j].busy || w[j + 1].busy {
      if j + 1 < lo {
        assert Adjoins(v, j);
      } else if j > lo {
        assert Adjoins(v, j + (hi - lo));
      } else if j == lo {
        assert Adjoins(v, hi);
      } else {
        assert Adjoins(v, j);
      }
    }
  }

  /** The blocks after a free, one by one. */
  lemma {:induction false} FreeBlockAt(v: seq<Block>, i: nat)
    requires i < |v|
    ensures Freed(v, FreeBlock(v, i), if JoinsPrev(v, i) then i - 1 else i, if JoinsNext(v, i) then i + 1 else i)
  {
    if JoinsNext(v, i) {
      FreeNextAt(v, i);
    } else {
      FreeAloneAt(v, i);
    }
  }

  /** The blocks lo to hi of v have become one free block in w. */
  ghost predicate Freed(v: seq<Block>, w: seq<Block>, lo: nat, hi: nat) {
    && lo <= hi < |v| && |w| == |v| - (hi - lo)
    && (forall j :: 0 <= j < lo ==> w[j] == v[j])
    && w[lo].addr == v[lo].addr && w[lo].End() == v[hi].End() && !w[lo].busy
    && (forall j :: lo < j < |w| ==> w[j] == v[j + (hi - lo)])
  }

  lemma {:induction false} FreeNextAt(v: seq<Block>, i: nat)
    requires i < |v| && JoinsNext(v, i)
    ensures Freed(v, FreeBlock(v, i), if JoinsPrev(v, i) then i - 1 else i, i + 1)
  {
    var marked := v[i := v[i].(busy := false)];
    var right := JoinNext(marked, i);
    JoinNextAt(marked, i);
    assert Freed(v, right, i, i + 1);
    if JoinsPrev(v, i) {
      JoinPrevFreed(v, right, i, i + 1);
    }
  }

  lemma {:induction false} FreeAloneAt(v: seq<Block>, i: nat)
    requires i < |v| && !JoinsNext(v, i)
    ensures Freed(v, FreeBlock(v, i), if JoinsPrev(v, i) then i - 1 else i, i)
  {
    var marked := v[i := v[i].(busy := false)];
    assert Freed(v, marked, i, i);
    if JoinsPrev(v, i) {
      JoinPrevFreed(v, marked, i, i);
    }
  }

  /** The left neighbour swallows what has been freed. */
  lemma {:induction false} JoinPrevFreed(v: seq<Block>, w: seq<Block>, i: nat, hi: nat)
    requires Freed(v, w, i, hi) && JoinsPrev(v, i)
    ensures Freed(v, JoinNext(w, i - 1), i - 1, hi)
  {
    JoinNextAt(w, i - 1);
  }

  /** The block at index i, merged with a free right neighbour. */
  function JoinedNext(v: seq<Block>, i: nat): seq<Block>
    requires i < |v|
  {
    if JoinsNext(v, i) then JoinNext(v, i) else v
  }

  function JoinedPrev(v: seq<Block>, i: nat): seq<Block>
    requires i < |v|
  {
    if JoinsPrev(v, i) then JoinNext(v, i - 1) else v
  }

  /** Marking a block free and merging it to the right commute. */
  lemma {:induction false} MarkJoinsNext(v: seq<Block>, i: nat)
    requires i + 1 < |v|
    ensures i < |JoinNext(v, i)|
    ensures JoinNext(v[i := v[i].(busy := false)], i) == JoinNext(v, i)[i := JoinNext(v, i)[i].(busy := false)]
  {
    JoinNextAt(v, i);
    JoinNextAt(v[i := v[i].(busy := false)], i);
  }

  /** A block that a free left neighbour swallows need not be marked. */
  lemma {:induction false} MarkJoinsPrev(v: seq<Block>, i: nat)
    requires 0 < i < |v| && !v[i - 1].busy
    ensures var w := JoinNext(v, i - 1);
      i - 1 < |w| && !w[i - 1].busy && JoinNext(v[i := v[i].(busy := false)], i - 1) == w
  {
    JoinNextAt(v, i - 1);
    JoinNextAt(v[i := v[i].(busy := false)], i - 1);
  }

  /** Merging first and marking the result free gives the same as marking first. */
  lemma {:induction false} FreeIsJoinThenMark(v: seq<Block>, i: nat)
    requires i < |v|
    ensures i < |JoinedNext(v, i)| && (JoinsPrev(JoinedNext(v, i), i) <==> JoinsPrev(v, i))
    ensures var w := JoinedPrev(JoinedNext(v, i), i); var lo := if JoinsPrev(v, i) then i - 1 else i;
      lo < |w| && FreeBlock(v, i) == w[lo := w[lo].(busy := false)]
  {
    if JoinsNext(v, i) {
      MarkJoinsNext(v, i);
      JoinNextAt(v, i);
    }
    if JoinsPrev(v, i) {
      MarkJoinsPrev(JoinedNext(v, i), i);
    }
  }

  /** In a gapless fully coalesced heap without busy blocks there is just one block. */
  lemma {:induction false} AllFreeIsOne(v: seq<Block>)
    requires v != [] && Coalesced(v) && Contiguous(v)
    requires forall i :: 0 <= i < |v| ==> !v[i].busy
    ensures |v| == 1
  {
    if |v| > 1 {
      FreeNeighbours(v);
    }
  }

  lemma {:induction false} FreeNeighbours(v: seq<Block>)
    requires |v| > 1 && Contiguous(v) && !v[0].busy && !v[1].busy
    ensures !Coalesced(v)
  {
    assert v[0].End() == v[1].addr;
    assert Adjoins(v, 0);
  }

  // ----- freeing undoes allocating

  /**
   Freeing the block just allocated gives back the old sequence exactly when the block to its right was not
   itself a free neighbour, which a fully coalesced heap rules out.
   */
  lemma {:induction false} FreeUndoesAlloc(v: seq<Block>, i: nat, start: nat)
    requires i < |v| && !v[i].busy && v[i].addr <= start <= v[i].End()
    ensures FreeBlock(AllocBlock(v, i, start), i + 1) == v <==> !JoinsNext(v, i)
  {
    var w := AllocBlock(v, i, start);
    assert w[i + 1].End() == v[i].End();
    assert i + 2 < |w| ==> w[i + 2] == v[i + 1];
    assert JoinsPrev(w, i + 1) && (JoinsNext(w, i + 1) <==> JoinsNext(v, i));
    FreeBlockAt(w, i + 1);
    var u := FreeBlock(w, i + 1);
    if !JoinsNext(v, i) {
      assert |u| == |v|;
      assert u[i] == v[i];
      assert u == v;
    }
  }

  lemma {:induction false} CoalescedNoNext(v: seq<Block>, i: nat)
    requires Coalesced(v) && i < |v| && !v[i].busy
    ensures !JoinsNext(v, i)
  {
  }

  // ----- sorted insertion

  lemma {:induction false} InsertIndexSplits(v: seq<Block>, addr: nat, header: nat, limit: nat)
    requires Ordered(v, header, limit) && header > 0
    ensures forall j :: 0 <= j < InsertIndex(v, addr) ==> v[j].addr <= addr
    ensures forall j :: InsertIndex(v, addr) <= j < |v| ==> addr < v[j].addr
    decreases |v|
  {
    if v != [] {
      if addr < v[0].addr {
      } else {
        assert Ordered(v[1..], header, limit);
        InsertIndexSplits(v[1..], addr, header, limit);
        forall j | 0 <= j < InsertIndex(v, addr) ensures v[j].addr <= addr {
          if j > 0 { assert v[j] == v[1..][j - 1]; }
        }
        forall j | InsertIndex(v, addr) <= j < |v| ensures addr < v[j].addr {
          assert v[j] == v[1..][j - 1];
        }
      }
    }
  }

  /** There is only one place that keeps the order. */
  lemma {:induction false} InsertIndexUnique(v: seq<Block>, addr: nat, header: nat, limit: nat, k: nat)
    requires Ordered(v, header, limit) && header > 0 && k <= |v|
    requires forall j :: 0 <= j < k ==> v[j].addr <= addr
    requires forall j :: k <= j < |v| ==> addr < v[j].addr
    ensures k == InsertIndex(v, addr)
  {
    InsertIndexSplits(v, addr, header, limit);
    var m := InsertIndex(v, addr);
    assert k < |v| ==> addr < v[k].addr;
    assert m < |v| ==> addr < v[m].addr;
  }

  /** The new memory does not overlap any block. */
  ghost predicate Clear(v: seq<Block>, b: Block) {
    forall j :: 0 <= j < |v| ==> b.End() <= v[j].addr || v[j].End() <= b.addr
  }

  lemma {:induction false} InsertBlockAt(v: seq<Block>, b: Block)
    ensures var k, w := InsertIndex(v, b.addr), InsertBlock(v, b);
      && |w| == |v| + 1 && w[k] == b
      && (forall j :: 0 <= j < k ==> w[j] == v[j])
      && (forall j :: k < j < |w| ==> w[j] == v[j - 1])
  {
  }

  /** Marking the inserted block free. */
  lemma {:induction false} InsertedMarked(v: seq<Block>, b: Block)
    ensures var k, w := InsertIndex(v, b.addr), InsertBlock(v, b);
      k < |w| && w[k] == b && InsertBlock(v, b.(busy := false)) == w[k := w[k].(busy := false)]
  {
  }

  lemma {:induction false} InsertOrdered(v: seq<Block>, b: Block, header: nat, limit: nat)
    requires Ordered(v, header, limit) && header > 0 && Clear(v, b) && header <= b.size && b.End() <= limit
    ensures Ordered(InsertBlock(v, b), header, limit)
  {
    InsertIndexSplits(v, b.addr, header, limit);
    InsertBlockAt(v, b);
    var m, w := InsertIndex(v, b.addr), InsertBlock(v, b);
    forall j | 0 <= j < m ensures v[j].End() <= b.addr {
      assert v[j].addr <= b.addr;
    }
    forall j | m <= j < |v| ensures b.End() <= v[j].addr {
      assert b.addr < v[j].addr;
    }
    forall j, k | 0 <= j < k < |w| ensures w[j].End() <= w[k].addr {
      if j != m && k != m {
        assert v[if j < m then j else j - 1].End() <= v[if k < m then k else k - 1].addr;
      }
    }
    forall j | 0 <= j < |w| ensures header <= w[j].size && w[j].End() <= limit {
      assert j != m ==> w[j] == v[if j < m then j else j - 1];
    }
  }
}
