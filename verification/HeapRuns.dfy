/**
 Whole runs of a heap made from one region: any sequence of allocations, frees and writes through the data
 pointers handed out, whichever suitable block the search picks.
 */
module HeapRuns {
  import opened Bits
  import opened SizeClass
  import opened Blocks

  /** The header length, the region of the heap, and the end of the address space. */
  datatype Config = Config(header: nat, base: nat, len: nat, limit: nat)

  /** What the heap keeps: its blocks, the memory, and alloc_count. */
  datatype Store = Store(blocks: seq<Block>, bytes: seq<Byte>, count: nat)

  /** What malloc_elem_alloc is asked for: the rounded size and alignment of a heap_alloc. */
  datatype Request = Request(size: nat, align: nat)

  /** live holds the requests not freed yet, by data pointer. */
  datatype State = State(store: Store, live: map<nat, Request>)

  datatype Op = Alloc(request: Request) | Free(data: nat) | Write(data: nat, offset: nat, value: Byte)

  ghost predicate GoodConfig(c: Config) {
    0 < c.header <= c.len && c.base + c.len <= c.limit < TWO_64
  }

  // ----- the steps

  /** Headers are rewritten at will; all other bytes stay. */
  ghost predicate InHeader(v: seq<Block>, header: nat, a: nat) {
    exists i :: 0 <= i < |v| && v[i].addr <= a < v[i].addr + header
  }

  predicate Holder(header: nat, v: seq<Block>, i: nat, r: Request) {
    i < |v| && !v[i].busy && r.align > 0 && CanHold(v[i].addr, v[i].size, r.size, r.align, header)
  }

  function StartIn(header: nat, v: seq<Block>, i: nat, r: Request): nat
    requires Holder(header, v, i, r)
  {
    ElemStart(v[i].addr, v[i].size, r.size, r.align, header).value
  }

  /** The data pointer handed out. */
  function DataIn(header: nat, v: seq<Block>, i: nat, r: Request): nat
    requires Holder(header, v, i, r)
  {
    StartIn(header, v, i, r) + header
  }

  /** The block is carved out of block i, the rest of which keeps room for its own header. */
  ghost predicate AllocFrom(header: nat, s: Store, i: nat, r: Request, s': Store) {
    && Holder(header, s.blocks, i, r)
    && s.blocks[i].addr + header <= StartIn(header, s.blocks, i, r) <= s.blocks[i].End()
    && s'.blocks == AllocBlock(s.blocks, i, StartIn(header, s.blocks, i, r))
    && s'.count == Incremented(s.count)
    && |s'.bytes| == |s.bytes|
    && forall a :: 0 <= a < |s.bytes| && !InHeader(s'.blocks, header, a) ==> s'.bytes[a] == s.bytes[a]
  }

  ghost predicate FreeAt(header: nat, s: Store, i: nat, s': Store) {
    && i < |s.blocks| && s.blocks[i].busy
    && s'.blocks == FreeBlock(s.blocks, i)
    && s'.count == Decremented(s.count)
    && |s'.bytes| == |s.bytes|
    && forall a :: 0 <= a < |s.bytes| && !InHeader(s.blocks, header, a) ==>
         s'.bytes[a] == if s.blocks[i].addr <= a < s.blocks[i].End() then 0 else s.bytes[a]
  }

  /** A refused allocation changes nothing. */
  ghost predicate NextAlloc(c: Config, s: State, r: Request, s': State) {
    && IsPow2(r.align) && r.align + c.header <= c.base
    && if forall i :: 0 <= i < |s.store.blocks| ==> !Holder(c.header, s.store.blocks, i, r) then
         s' == s
       else
         exists i :: AllocFrom(c.header, s.store, i, r, s'.store)
           && s'.live == s.live[DataIn(c.header, s.store.blocks, i, r) := r]
  }

  ghost predicate NextFree(c: Config, s: State, data: nat, s': State) {
    && data in s.live
    && s'.live == s.live - {data}
    && exists i: nat :: FreeAt(c.header, s.store, i, s'.store) && s.store.blocks[i].addr + c.header == data
  }

  ghost predicate NextWrite(s: State, data: nat, offset: nat, value: Byte, s': State) {
    && data in s.live && offset < s.live[data].size && data + offset < |s.store.bytes|
    && s' == s.(store := s.store.(bytes := s.store.bytes[data + offset := value]))
  }

  ghost predicate Next(c: Config, s: State, op: Op, s': State) {
    match op
    case Alloc(r) => NextAlloc(c, s, r, s')
    case Free(data) => NextFree(c, s, data, s')
    case Write(data, offset, value) => NextWrite(s, data, offset, value, s')
  }

  /** malloc_heap_create: one free block, nothing live. */
  ghost predicate Init(c: Config, s: State) {
    && s.store.blocks == [Block(c.base, c.len, false)]
    && |s.store.bytes| == c.limit
    && s.store.count == 0
    && s.live == map[]
  }

  ghost predicate Run(c: Config, states: seq<State>, ops: seq<Op>) {
    && GoodConfig(c)
    && |states| == |ops| + 1
    && Init(c, states[0])
    && forall n :: 0 <= n < |ops| ==> Next(c, states[n], ops[n], states[n + 1])
  }

  // ----- what every reachable state satisfies

  /** The blocks tile the region in address order, fully coalesced. */
  ghost predicate Layout(c: Config, v: seq<Block>) {
    && Ordered(v, c.header, c.limit) && Contiguous(v) && Coalesced(v)
    && v != [] && v[0].addr == c.base && TotalSize(v) == c.len
  }

  predicate BusyAt(header: nat, v: seq<Block>, i: int, data: int) {
    0 <= i < |v| && v[i].busy && v[i].addr + header == data
  }

  /** The data pointer is aligned, and what was asked for fits between it and the end of its block. */
  predicate Serves(d: nat, end: nat, r: Request) {
    r.align > 0 && d % r.align == 0 && d + r.size <= end
  }

  /** The live requests are exactly the busy blocks, and each block serves its request. */
  ghost predicate Tracked<R>(header: nat, v: seq<Block>, live: map<nat, R>, serves: (nat, nat, R) -> bool) {
    Handed(header, v, live, serves) && Backed(header, v, live)
  }

  ghost predicate Handed<R>(header: nat, v: seq<Block>, live: map<nat, R>, serves: (nat, nat, R) -> bool) {
    forall i, d :: BusyAt(header, v, i, d) ==> d in live && serves(d, v[i].End(), live[d])
  }

  ghost predicate Backed<R>(header: nat, v: seq<Block>, live: map<nat, R>) {
    forall d :: d in live ==> exists i :: BusyAt(header, v, i, d)
  }

  ghost predicate Inv(c: Config, s: State) {
    && Layout(c, s.store.blocks)
    && Tracked(c.header, s.store.blocks, s.live, Serves)
    && |s.store.bytes| == c.limit
    && s.store.count == Word32(|s.live|)
  }

  lemma {:induction false} Apart(v: seq<Block>, header: nat, limit: nat, i: nat, j: nat)
    requires Ordered(v, header, limit) && i < |v| && j < |v| && i != j
    ensures v[i].End() <= v[j].addr || v[j].End() <= v[i].addr
  {
    if i < j {
      assert v[i].End() <= v[j].addr;
    }
  }

  /** Data bytes belong to one block, and are in no header. */
  lemma {:induction false} DataApart(v: seq<Block>, header: nat, limit: nat, i: nat, a: nat)
    requires Ordered(v, header, limit) && i < |v| && v[i].addr + header <= a < v[i].End()
    ensures !InHeader(v, header, a)
    ensures forall j :: 0 <= j < |v| && j != i ==> !(v[j].addr <= a < v[j].End())
  {
    forall j | 0 <= j < |v| && j != i ensures !(v[j].addr <= a < v[j].End()) {
      Apart(v, header, limit, i, j);
    }
  }

  /** Block i of v has become a free and a busy block in w. */
  ghost predicate Carved(v: seq<Block>, w: seq<Block>, i: nat, high: Block) {
    && i < |v| && !v[i].busy && |w| == |v| + 1 && !w[i].busy && w[i + 1] == high && high.busy
    && (forall j :: 0 <= j < i ==> w[j] == v[j])
    && (forall j :: i + 1 < j < |w| ==> w[j] == v[j - 1])
  }

  lemma {:induction false} NewIsNotLive<R>(v: seq<Block>, live: map<nat, R>, header: nat, limit: nat, i: nat, d: nat)
    requires Ordered(v, header, limit) && header > 0 && Backed(header, v, live)
    requires i < |v| && !v[i].busy && v[i].addr <= d - header < v[i].End()
    ensures d !in live
  {
    forall j | 0 <= j < |v| && v[j].busy ensures !BusyAt(header, v, j, d) {
      Apart(v, header, limit, i, j);
    }
  }

  lemma {:induction false} AllocHanded<R>(v: seq<Block>, w: seq<Block>, live: map<nat, R>,
      serves: (nat, nat, R) -> bool, header: nat, i: nat, high: Block, d: nat, r: R)
    requires Carved(v, w, i, high) && Handed(header, v, live, serves)
    requires d == high.addr + header && d !in live && serves(d, high.End(), r)
    ensures Handed(header, w, live[d := r], serves)
  {
    forall j, e | BusyAt(header, w, j, e) ensures e in live[d := r] && serves(e, w[j].End(), live[d := r][e]) {
      if j != i + 1 {
        var k := if j < i then j else j - 1;
        assert w[j] == v[k] && BusyAt(header, v, k, e);
      }
    }
  }

  lemma {:induction false} AllocBacked<R>(v: seq<Block>, w: seq<Block>, live: map<nat, R>, header: nat, i: nat,
      high: Block, d: nat, r: R)
    requires Carved(v, w, i, high) && Backed(header, v, live) && d == high.addr + header
    ensures Backed(header, w, live[d := r])
  {
    forall e {:trigger e in live} | e in live[d := r] ensures exists j :: BusyAt(header, w, j, e) {
      if e == d {
        assert BusyAt(header, w, i + 1, d);
      } else {
        assert e in live;
        var j :| BusyAt(header, v, j, e);
        var k := if j < i then j else j + 1;
        assert w[k] == v[j] && BusyAt(header, w, k, e);
      }
    }
  }

  /** The blocks lo to hi of v, of which only i was busy, have become one free block in w. */
  ghost predicate Merged(v: seq<Block>, w: seq<Block>, lo: nat, i: nat, hi: nat) {
    && lo <= i <= hi < |v| && v[i].busy && |w| == |v| - (hi - lo) && !w[lo].busy
    && (forall j :: 0 <= j < lo ==> w[j] == v[j])
    && (forall j :: lo <= j <= hi && j != i ==> !v[j].busy)
    && (forall j :: lo < j < |w| ==> w[j] == v[j + (hi - lo)])
  }

  lemma {:induction false} FreeMerges(v: seq<Block>, i: nat)
    requires i < |v| && v[i].busy
    ensures Merged(v, FreeBlock(v, i), if JoinsPrev(v, i) then i - 1 else i, i, if JoinsNext(v, i) then i + 1 else i)
  {
    FreeBlockAt(v, i);
  }

  lemma {:induction false} FreeHanded<R>(v: seq<Block>, w: seq<Block>, live: map<nat, R>, serves: (nat, nat, R) -> bool,
      header: nat, limit: nat, lo: nat, i: nat, hi: nat, d: nat)
    requires Ordered(v, header, limit) && header > 0 && Merged(v, w, lo, i, hi) && Handed(header, v, live, serves)
    requires d == v[i].addr + header
    ensures d in live && Handed(header, w, live - {d}, serves)
  {
    assert BusyAt(header, v, i, d);
    forall j, e | BusyAt(header, w, j, e) ensures e in live && e != d && serves(e, w[j].End(), live[e]) {
      var k := if j < lo then j else j + (hi - lo);
      assert w[j] == v[k] && BusyAt(header, v, k, e);
      Apart(v, header, limit, i, k);
    }
  }

  lemma {:induction false} FreeBacked<R>(v: seq<Block>, w: seq<Block>, live: map<nat, R>, header: nat, lo: nat, i: nat,
      hi: nat, d: nat)
    requires Merged(v, w, lo, i, hi) && Backed(header, v, live) && d == v[i].addr + header
    ensures Backed(header, w, live - {d})
  {
    forall e | e in live && e != d ensures exists j :: BusyAt(header, w, j, e) {
      var j :| BusyAt(header, v, j, e);
      assert j < lo || j > hi;
      var k := if j < lo then j else j - (hi - lo);
      assert w[k] == v[j] && BusyAt(header, w, k, e);
    }
  }

  lemma {:induction false} AllocTracked<R>(v: seq<Block>, live: map<nat, R>, serves: (nat, nat, R) -> bool,
      header: nat, limit: nat, i: nat, start: nat, d: nat, r: R)
    requires Ordered(v, header, limit) && header > 0 && Tracked(header, v, live, serves)
    requires i < |v| && !v[i].busy && v[i].addr <= start < v[i].End() && d == start + header
    requires serves(d, v[i].End(), r)
    ensures d !in live && Tracked(header, AllocBlock(v, i, start), live[d := r], serves)
  {
    var w, high := AllocBlock(v, i, start), Block(start, v[i].End() - start, true);
    AllocBlockAt(v, i, start);
    NewIsNotLive(v, live, header, limit, i, d);
    assert Carved(v, w, i, high);
    AllocHanded(v, w, live, serves, header, i, high, d, r);
    AllocBacked(v, w, live, header, i, high, d, r);
  }

  lemma {:induction false} FreeTracked<R>(v: seq<Block>, live: map<nat, R>, serves: (nat, nat, R) -> bool,
      header: nat, limit: nat, i: nat, d: nat)
    requires Ordered(v, header, limit) && header > 0 && Tracked(header, v, live, serves)
    requires i < |v| && v[i].busy && d == v[i].addr + header
    ensures d in live && Tracked(header, FreeBlock(v, i), live - {d}, serves)
  {
    var lo, hi := if JoinsPrev(v, i) then i - 1 else i, if JoinsNext(v, i) then i + 1 else i;
    FreeMerges(v, i);
    FreeHanded(v, FreeBlock(v, i), live, serves, header, limit, lo, i, hi, d);
    FreeBacked(v, FreeBlock(v, i), live, header, lo, i, hi, d);
  }

  // ----- every step keeps the invariant

  /** From one region: the blocks reach exactly to its end. */
  lemma {:induction false} TiledEnd(v: seq<Block>)
    requires v != [] && Contiguous(v)
    ensures v[|v| - 1].End() == v[0].addr + TotalSize(v)
  {
    if |v| == 1 {
      TotalSizeOne(v[0]);
      assert v == [v[0]];
    } else {
      var rest := v[1..];
      forall i {:trigger rest[i].End()} | 0 <= i < |rest| - 1 ensures rest[i].End() == rest[i + 1].addr {
        assert v[i + 1].End() == v[i + 2].addr;
      }
      TiledEnd(rest);
      assert v[0].End() == v[1].addr;
    }
  }

  lemma {:induction false} AllocLayout(c: Config, v: seq<Block>, i: nat, start: nat)
    requires Layout(c, v) && c.header > 0 && i < |v| && !v[i].busy
    requires v[i].addr + c.header <= start && start + c.header <= v[i].End()
    ensures Layout(c, AllocBlock(v, i, start))
  {
    AllocOrdered(v, i, start, c.header, c.limit);
    AllocContiguous(v, i, start);
    AllocCoalesced(v, i, start);
    AllocConserves(v, i, start);
    AllocBlockAt(v, i, start);
  }

  lemma {:induction false} FreeLayout(c: Config, v: seq<Block>, i: nat)
    requires Layout(c, v) && i < |v| && v[i].busy
    ensures Layout(c, FreeBlock(v, i))
  {
    FreeOrdered(v, i, c.header, c.limit);
    FreeContiguous(v, i);
    FreeCoalesced(v, i);
    FreeConserves(v, i);
    FreeBlockAt(v, i);
  }

  /** What elem_start_pt gives: an aligned data pointer with enough room behind it. */
  lemma {:induction false} HolderServes(header: nat, v: seq<Block>, i: nat, r: Request)
    requires Holder(header, v, i, r) && IsPow2(r.align) && Roomy(v[i].addr, v[i].size, r.align, header)
    ensures v[i].addr <= StartIn(header, v, i, r) && StartIn(header, v, i, r) + header <= v[i].End()
    ensures Serves(DataIn(header, v, i, r), v[i].End(), r)
  {
    StartFits(v[i].addr, v[i].size, r.size, r.align, header, DataIn(header, v, i, r));
  }

  lemma {:induction false} StartServes(c: Config, v: seq<Block>, i: nat, r: Request)
    requires Layout(c, v) && GoodConfig(c) && Holder(c.header, v, i, r)
    requires IsPow2(r.align) && r.align + c.header <= c.base
    ensures v[i].addr <= StartIn(c.header, v, i, r) && StartIn(c.header, v, i, r) + c.header <= v[i].End()
    ensures Serves(DataIn(c.header, v, i, r), v[i].End(), r)
  {
    if i > 0 {
      Apart(v, c.header, c.limit, 0, i);
      assert v[0].End() <= v[i].addr;
    }
    HolderServes(c.header, v, i, r);
  }

  lemma {:induction false} CountStepUp(n: nat, count: nat)
    requires count == Word32(n)
    ensures Incremented(count) == Word32(n + 1)
  {
    WordSum(n, 1);
  }

  lemma {:induction false} CountStepDown(n: nat, count: nat)
    requires count == Word32(n) && n > 0
    ensures Decremented(count) == Word32(n - 1)
  {
    var q := n / TWO_32;
    assert n == TWO_32 * q + count;
    if count > 0 {
      DivModUnique(n - 1, TWO_32, q, count - 1);
      DivModUnique(count - 1, TWO_32, 0, count - 1);
    } else {
      DivModUnique(n - 1, TWO_32, q - 1, TWO_32 - 1);
      DivModUnique(-1, TWO_32, -1, TWO_32 - 1);
    }
  }

  lemma {:induction false} OneMore(live: map<nat, Request>, d: nat, r: Request)
    requires d !in live
    ensures |live[d := r]| == |live| + 1
  {
    assert live[d := r].Keys == live.Keys + {d};
  }

  lemma {:induction false} OneLess(live: map<nat, Request>, d: nat)
    requires d in live
    ensures |live - {d}| == |live| - 1
  {
    assert live.Keys == (live - {d}).Keys + {d};
  }

  lemma {:induction false} CountUp(live: map<nat, Request>, d: nat, r: Request, count: nat)
    requires d !in live && count == Word32(|live|)
    ensures Incremented(count) == Word32(|live[d := r]|)
  {
    CountStepUp(|live|, count);
    OneMore(live, d, r);
  }

  lemma {:induction false} CountDown(live: map<nat, Request>, d: nat, count: nat)
    requires d in live && count == Word32(|live|)
    ensures Decremented(count) == Word32(|live - {d}|)
  {
    OneLess(live, d);
    CountStepDown(|live|, count);
  }

  lemma {:induction false} AllocKeeps(c: Config, s: State, r: Request, i: nat, d: nat, s': State)
    requires GoodConfig(c) && Inv(c, s) && AllocFrom(c.header, s.store, i, r, s'.store)
    requires IsPow2(r.align) && r.align + c.header <= c.base
    requires d == DataIn(c.header, s.store.blocks, i, r) && s'.live == s.live[d := r]
    ensures Inv(c, s') && d !in s.live
  {
    var v, start := s.store.blocks, StartIn(c.header, s.store.blocks, i, r);
    StartServes(c, v, i, r);
    AllocLayout(c, v, i, start);
    AllocTracked(v, s.live, Serves, c.header, c.limit, i, start, d, r);
    CountUp(s.live, d, r, s.store.count);
  }

  lemma {:induction false} FreeKeeps(c: Config, s: State, i: nat, d: nat, s': State)
    requires GoodConfig(c) && Inv(c, s) && FreeAt(c.header, s.store, i, s'.store)
    requires d == s.store.blocks[i].addr + c.header && s'.live == s.live - {d}
    ensures Inv(c, s') && d in s.live
  {
    var v := s.store.blocks;
    FreeLayout(c, v, i);
    FreeTracked(v, s.live, Serves, c.header, c.limit, i, d);
    CountDown(s.live, d, s.store.count);
  }

  /** The block an allocation that changed something was carved from, and the pointer handed out. */
  lemma {:induction false} ChosenBlock(c: Config, s: State, r: Request, s': State) returns (i: nat, data: nat)
    requires NextAlloc(c, s, r, s') && s' != s
    ensures AllocFrom(c.header, s.store, i, r, s'.store)
    ensures data == DataIn(c.header, s.store.blocks, i, r) && s'.live == s.live[data := r]
  {
    i :| AllocFrom(c.header, s.store, i, r, s'.store) && s'.live == s.live[DataIn(c.header, s.store.blocks, i, r) := r];
    data := DataIn(c.header, s.store.blocks, i, r);
  }

  lemma {:induction false} FreedBlock(c: Config, s: State, data: nat, s': State) returns (i: nat)
    requires NextFree(c, s, data, s')
    ensures FreeAt(c.header, s.store, i, s'.store) && s.store.blocks[i].addr + c.header == data
  {
    i :| FreeAt(c.header, s.store, i, s'.store) && s.store.blocks[i].addr + c.header == data;
  }

  lemma {:induction false} InitInv(c: Config, s: State)
    requires GoodConfig(c) && Init(c, s)
    ensures Inv(c, s)
  {
    TotalSizeOne(s.store.blocks[0]);
  }

  lemma {:induction false} NextKeeps(c: Config, s: State, op: Op, s': State)
    requires GoodConfig(c) && Inv(c, s) && Next(c, s, op, s')
    ensures Inv(c, s')
  {
    match op
    case Alloc(r) =>
      if s' != s {
        var i, data := ChosenBlock(c, s, r, s');
        AllocKeeps(c, s, r, i, data, s');
      }
    case Free(data) =>
      var i := FreedBlock(c, s, data, s');
      FreeKeeps(c, s, i, data, s');
    case Write(_, _, _) =>
  }

  /** Every state of every run satisfies the invariant. */
  lemma {:induction false} RunInv(c: Config, states: seq<State>, ops: seq<Op>, n: nat)
    requires Run(c, states, ops) && n < |states|
    ensures Inv(c, states[n])
  {
    if n == 0 {
      InitInv(c, states[0]);
    } else {
      var m := n - 1;
      RunInv(c, states, ops, m);
      assert Next(c, states[m], ops[m], states[m + 1]);
      NextKeeps(c, states[m], ops[m], states[n]);
    }
  }

  // ----- what this means for the callers

  /** The busy block behind a live data pointer. */
  lemma {:induction false} BlockOfLive(c: Config, s: State, d: nat) returns (i: nat)
    requires Inv(c, s) && d in s.live
    ensures BusyAt(c.header, s.store.blocks, i, d) && s.store.blocks[i].End() <= c.limit
    ensures var r := s.live[d]; d + r.size <= s.store.blocks[i].End() && r.align > 0 && d % r.align == 0
  {
    var j :| BusyAt(c.header, s.store.blocks, j, d);
    i := j;
    assert Serves(d, s.store.blocks[i].End(), s.live[d]);
  }

  /** Data of two live requests is apart, with room for a header in between. */
  lemma {:induction false} LiveApart(c: Config, s: State, d: nat, e: nat)
    requires Inv(c, s) && d in s.live && e in s.live && d < e
    ensures d + s.live[d].size + c.header <= e
  {
    var i := BlockOfLive(c, s, d);
    var j := BlockOfLive(c, s, e);
    Apart(s.store.blocks, c.header, c.limit, i, j);
  }

  lemma {:induction false} BlocksInRegion(c: Config, v: seq<Block>, i: nat)
    requires Layout(c, v) && i < |v|
    ensures c.base <= v[i].addr && v[i].End() <= c.base + c.len
  {
    TiledEnd(v);
    if i > 0 {
      Apart(v, c.header, c.limit, 0, i);
      assert v[0].End() <= v[i].addr;
    }
    if i < |v| - 1 {
      assert v[i].End() <= v[|v| - 1].addr;
    }
  }

  /** No byte of this data is in a header, or in any block but the one whose data starts there. */
  ghost predicate StandsAlone(v: seq<Block>, header: nat, d: nat, n: nat) {
    forall a :: d <= a < d + n ==>
      && !InHeader(v, header, a)
      && forall j :: 0 <= j < |v| && v[j].addr + header != d ==> !(v[j].addr <= a < v[j].End())
  }

  lemma {:induction false} DataStandsAlone(v: seq<Block>, header: nat, limit: nat, i: nat, d: nat, n: nat)
    requires Ordered(v, header, limit) && header > 0 && i < |v| && v[i].addr + header == d && d + n <= v[i].End()
    ensures StandsAlone(v, header, d, n)
  {
    forall a | d <= a < d + n
      ensures !InHeader(v, header, a)
      ensures forall j :: 0 <= j < |v| && v[j].addr + header != d ==> !(v[j].addr <= a < v[j].End())
    {
      DataApart(v, header, limit, i, a);
    }
  }

  /** Where the data of a live request lies. */
  lemma {:induction false} LivePlaced(c: Config, s: State, d: nat)
    requires GoodConfig(c) && Inv(c, s) && d in s.live
    ensures var r := s.live[d];
      && c.base + c.header <= d && d + r.size <= c.base + c.len
      && r.align > 0 && d % r.align == 0
      && StandsAlone(s.store.blocks, c.header, d, r.size)
  {
    var i := BlockOfLive(c, s, d);
    BlocksInRegion(c, s.store.blocks, i);
    DataStandsAlone(s.store.blocks, c.header, c.limit, i, d, s.live[d].size);
  }

  /** The data of any other live request is apart from it, whichever comes first. */
  lemma {:induction false} OthersApart(c: Config, s: State, d: nat, e: nat)
    requires Inv(c, s) && d in s.live && e in s.live && d != e
    ensures d + s.live[d].size + c.header <= e || e + s.live[e].size + c.header <= d
  {
    if d < e { LiveApart(c, s, d, e); } else { LiveApart(c, s, e, d); }
  }

  /**
   In every reachable state, each live block lies inside the region behind its header, starts where its alignment
   wants it, has all the requested bytes, and shares no byte with any header or any other block, live or free.
   */
  lemma {:induction false} LiveBlocksAreSafe(c: Config, states: seq<State>, ops: seq<Op>, n: nat, d: nat)
    requires Run(c, states, ops) && n < |states| && d in states[n].live
    ensures var r := states[n].live[d];
      && c.base + c.header <= d && d + r.size <= c.base + c.len
      && r.align > 0 && d % r.align == 0
      && StandsAlone(states[n].store.blocks, c.header, d, r.size)
    ensures forall e :: e in states[n].live && e != d ==>
      || d + states[n].live[d].size + c.header <= e
      || e + states[n].live[e].size + c.header <= d
  {
    RunInv(c, states, ops, n);
    LivePlaced(c, states[n], d);
    forall e | e in states[n].live && e != d
      ensures d + states[n].live[d].size + c.header <= e || e + states[n].live[e].size + c.header <= d
    {
      OthersApart(c, states[n], d, e);
    }
  }

  /** The bytes of a block of n bytes at d. */
  ghost predicate BytesKept(before: seq<Byte>, after: seq<Byte>, d: nat, n: nat) {
    && |after| == |before| && d + n <= |before|
    && forall a :: d <= a < d + n ==> after[a] == before[a]
  }

  predicate Touches(op: Op, d: nat) {
    (op.Free? || op.Write?) && op.data == d
  }

  lemma {:induction false} DataKept(v: seq<Block>, header: nat, limit: nat, i: nat, before: seq<Byte>,
      after: seq<Byte>, d: nat, n: nat)
    requires Ordered(v, header, limit) && i < |v| && v[i].addr + header <= d && d + n <= v[i].End()
    requires |before| == |after| == limit
    requires forall a :: 0 <= a < limit && !InHeader(v, header, a) ==> after[a] == before[a]
    ensures BytesKept(before, after, d, n)
  {
    forall a | d <= a < d + n ensures after[a] == before[a] {
      DataApart(v, header, limit, i, a);
    }
  }

  /** The same when the bytes of another block k may change as well. */
  lemma {:induction false} OtherDataKept(v: seq<Block>, header: nat, limit: nat, i: nat, k: nat,
      before: seq<Byte>, after: seq<Byte>, d: nat, n: nat)
    requires Ordered(v, header, limit) && i < |v| && v[i].addr + header <= d && d + n <= v[i].End()
    requires k < |v| && k != i && |before| == |after| == limit
    requires forall a :: 0 <= a < limit && !InHeader(v, header, a) && !(v[k].addr <= a < v[k].End()) ==>
        after[a] == before[a]
    ensures BytesKept(before, after, d, n)
  {
    forall a | d <= a < d + n ensures after[a] == before[a] {
      DataApart(v, header, limit, i, a);
    }
  }

  lemma {:induction false} AllocLeaves(c: Config, s: State, r: Request, i: nat, data: nat, s': State, d: nat)
    requires GoodConfig(c) && Inv(c, s) && AllocFrom(c.header, s.store, i, r, s'.store) && d in s.live
    requires IsPow2(r.align) && r.align + c.header <= c.base
    requires data !in s.live && s'.live == s.live[data := r]
    ensures d in s'.live && s'.live[d] == s.live[d]
    ensures BytesKept(s.store.bytes, s'.store.bytes, d, s.live[d].size)
  {
    var v, start := s.store.blocks, StartIn(c.header, s.store.blocks, i, r);
    StartServes(c, v, i, r);
    AllocOrdered(v, i, start, c.header, c.limit);
    var j := BlockOfLive(c, s, d);
    var k := AllocMoves(v, i, start, j);
    DataKept(s'.store.blocks, c.header, c.limit, k, s.store.bytes, s'.store.bytes, d, s.live[d].size);
  }

  lemma {:induction false} AllocMoves(v: seq<Block>, i: nat, start: nat, j: nat) returns (k: nat)
    requires i < |v| && v[i].addr <= start <= v[i].End() && j < |v| && j != i
    ensures k < |AllocBlock(v, i, start)| && AllocBlock(v, i, start)[k] == v[j]
  {
    AllocBlockAt(v, i, start);
    k := if j < i then j else j + 1;
  }

  lemma {:induction false} FreeLeaves(c: Config, s: State, i: nat, data: nat, s': State, d: nat)
    requires GoodConfig(c) && Inv(c, s) && FreeAt(c.header, s.store, i, s'.store)
    requires s.store.blocks[i].addr + c.header == data && s'.live == s.live - {data} && d in s.live && d != data
    ensures d in s'.live && s'.live[d] == s.live[d]
    ensures BytesKept(s.store.bytes, s'.store.bytes, d, s.live[d].size)
  {
    var j := BlockOfLive(c, s, d);
    OtherDataKept(s.store.blocks, c.header, c.limit, j, i, s.store.bytes, s'.store.bytes, d, s.live[d].size);
  }

  lemma {:induction false} WriteLeaves(c: Config, s: State, data: nat, offset: nat, value: Byte, s': State, d: nat)
    requires GoodConfig(c) && Inv(c, s) && NextWrite(s, data, offset, value, s') && d in s.live && d != data
    ensures BytesKept(s.store.bytes, s'.store.bytes, d, s.live[d].size)
  {
    var j := BlockOfLive(c, s, d);
    if d < data { LiveApart(c, s, d, data); } else { LiveApart(c, s, data, d); }
  }

  /** A step on another block leaves a live block live and its bytes alone. */
  lemma {:induction false} NextLeaves(c: Config, s: State, op: Op, s': State, d: nat)
    requires GoodConfig(c) && Inv(c, s) && Next(c, s, op, s') && d in s.live && !Touches(op, d)
    ensures d in s'.live && s'.live[d] == s.live[d]
    ensures BytesKept(s.store.bytes, s'.store.bytes, d, s.live[d].size)
  {
    match op
    case Alloc(r) =>
      if s' == s {
        var _ := BlockOfLive(c, s, d);
      } else {
        var i, data := ChosenBlock(c, s, r, s');
        AllocKeeps(c, s, r, i, data, s');
        AllocLeaves(c, s, r, i, data, s', d);
      }
    case Free(data) =>
      var i := FreedBlock(c, s, data, s');
      FreeLeaves(c, s, i, data, s', d);
    case Write(data, offset, value) =>
      WriteLeaves(c, s, data, offset, value, s', d);
  }

  /**
   Whatever others allocate, free and write in between, a block that its owner does not touch stays live with the
   same bytes.
   */
  lemma {:induction false} UntouchedSurvives(c: Config, states: seq<State>, ops: seq<Op>, m: nat, n: nat, d: nat)
    requires Run(c, states, ops) && m <= n < |states| && d in states[m].live
    requires forall k :: m <= k < n ==> !Touches(ops[k], d)
    ensures d in states[n].live && states[n].live[d] == states[m].live[d]
    ensures BytesKept(states[m].store.bytes, states[n].store.bytes, d, states[m].live[d].size)
    decreases n - m
  {
    if m == n {
      RunInv(c, states, ops, m);
      var _ := BlockOfLive(c, states[m], d);
    } else {
      RunInv(c, states, ops, n - 1);
      UntouchedSurvives(c, states, ops, m, n - 1, d);
      NextLeaves(c, states[n - 1], ops[n - 1], states[n], d);
    }
  }

  /** Once everything has been freed, in whatever order, the heap is the one free block it started as. */
  lemma {:induction false} AllFreedIsOneBlock(c: Config, states: seq<State>, ops: seq<Op>, n: nat)
    requires Run(c, states, ops) && n < |states|
    ensures states[n].live == map[] <==> states[n].store.blocks == [Block(c.base, c.len, false)]
  {
    RunInv(c, states, ops, n);
    var s := states[n];
    if s.live == map[] {
      NothingBusy(c, s);
      AllFreeIsOne(s.store.blocks);
      TotalSizeOne(s.store.blocks[0]);
      assert s.store.blocks == [s.store.blocks[0]];
    } else {
      var d :| d in s.live;
      var i := BlockOfLive(c, s, d);
    }
  }

  lemma {:induction false} NothingBusy(c: Config, s: State)
    requires Inv(c, s) && s.live == map[]
    ensures forall i :: 0 <= i < |s.store.blocks| ==> !s.store.blocks[i].busy
  {
    forall i | 0 <= i < |s.store.blocks| ensures !s.store.blocks[i].busy {
      var d := s.store.blocks[i].addr + c.header;
      assert d !in s.live;
      assert !BusyAt(c.header, s.store.blocks, i, d);
    }
  }

  /** The blocks of every reachable state tile the region exactly,
      and alloc_count counts the live blocks modulo 2^32. */
  lemma {:induction false} SpaceIsConserved(c: Config, states: seq<State>, ops: seq<Op>, n: nat)
    requires Run(c, states, ops) && n < |states|
    ensures var v := states[n].store.blocks;
      && v != [] && v[0].addr == c.base && v[|v| - 1].End() == c.base + c.len
      && (forall i :: 0 <= i < |v| - 1 ==> Adjoins(v, i))
      && (forall i :: 0 <= i < |v| - 1 ==> v[i].busy || v[i + 1].busy)
      && TotalSize(v) == c.len
    ensures states[n].store.count == Word32(|states[n].live|)
  {
    RunInv(c, states, ops, n);
    var v := states[n].store.blocks;
    TiledEnd(v);
    forall i | 0 <= i < |v| - 1 ensures Adjoins(v, i) && (v[i].busy || v[i + 1].busy) {
      assert v[i].End() == v[i + 1].addr;
    }
  }
}
