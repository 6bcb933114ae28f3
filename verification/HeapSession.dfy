/** Sequences of calls on a created heap: each of them is a run of the heap machine, so all its theorems hold. */
module HeapSession {
  import opened Bits
  import opened SizeClass
  import opened Blocks
  import opened Elements
  import opened Heap
  import opened HeapRuns
  import opened MallocHeap

  /** A call of heap_alloc, a call of heap_free, or a store through a data pointer. */
  datatype Call = Malloc(size: nat, align: nat) | Release(data: nat) | Poke(data: nat, offset: nat, value: Byte)

  /** What stands behind a data pointer: the header in front of it, and the bytes set aside. */
  datatype Handle = Handle(elem: Elem, size: nat)

  /** Arguments that heap_alloc can be called with in this region. */
  ghost predicate CallOk(c: Config, call: Call) {
    call.Malloc? ==>
      && call.size < TWO_64 && call.align < TWO_64
      && IsPow2(RoundedAlign(call.align)) && RoundedAlign(call.align) > 0
      && RoundedAlign(call.align) + c.header <= c.base
  }

  function OpOf(call: Call): Op {
    match call
    case Malloc(size, align) => HeapRuns.Alloc(Rounded(size, align))
    case Release(data) => HeapRuns.Free(data)
    case Poke(data, offset, value) => HeapRuns.Write(data, offset, value)
  }

  /** A call that does something: not for zero bytes, and through live pointers inside their blocks only. */
  predicate Acts(call: Call, live: map<nat, Request>) {
    match call
    case Malloc(size, _) => size != 0
    case Release(data) => data in live
    case Poke(data, offset, _) => data in live && offset < live[data].size
  }

  /** The operations are those of the calls that act, in order. */
  ghost predicate Script(calls: seq<Call>, states: seq<State>, ops: seq<Op>)
    requires |states| == |ops| + 1
    decreases |calls|
  {
    if calls == [] then ops == []
    else
      var call, before := calls[|calls| - 1], calls[..|calls| - 1];
      || (!Acts(call, states[|ops|].live) && Script(before, states, ops))
      || (ops != [] && Acts(call, states[|ops| - 1].live) && ops[|ops| - 1] == OpOf(call)
          && Script(before, states[..|ops|], ops[..|ops| - 1]))
  }

  /** The pointers handed out and not freed, each with the element in front of it. */
  ghost predicate Handled(list: seq<Elem>, header: nat, handles: map<nat, Handle>, live: map<nat, Request>) {
    && handles.Keys == live.Keys
    && forall d :: d in handles ==>
         handles[d].elem in list && handles[d].elem.addr + header == d && handles[d].size == live[d].size
  }

  /** The objects are in the state s of the machine. */
  ghost predicate Tracks(heap: Heap, c: Config, s: State, handles: map<nat, Handle>)
    reads heap, heap.elems, heap.mem
  {
    && heap.Valid() && heap.headerLen == c.header && heap.mem.Length == c.limit
    && s.store == Snapshot(heap)
    && Handled(heap.elems, c.header, handles, s.live)
  }

  // ----- what each call of a script does

  /**
   What a call does to what is live and to the bytes: a request that some block can hold is handed out at a new
   pointer, a live pointer that is released is live no more, a store inside a live block lands, and nothing else does
   anything.
   */
  ghost predicate Effect(c: Config, call: Call, s: State, s': State) {
    match call
    case Malloc(size, align) =>
      if size == 0 || !CanServe(c.header, s.store.blocks, Rounded(size, align)) then s' == s
      else NewlyLive(s.live, s'.live, Rounded(size, align))
    case Release(data) =>
      if data in s.live then data !in s'.live && s'.live == s.live - {data} else s' == s
    case Poke(data, offset, value) =>
      if data in s.live && offset < s.live[data].size then
        data + offset < |s.store.bytes| && s' == s.(store := s.store.(bytes := s.store.bytes[data + offset := value]))
      else s' == s
  }

  ghost predicate NewlyLive(live: map<nat, Request>, after: map<nat, Request>, r: Request) {
    exists d :: d in after && d !in live && after == live[d := r]
  }

  /** Call i takes the machine from state at[i] to state at[i + 1], which is the same or the next one. */
  ghost predicate Traced(c: Config, calls: seq<Call>, states: seq<State>, at: seq<nat>) {
    && |at| == |calls| + 1 && at[0] == 0 && at[|calls|] == |states| - 1
    && (forall i :: 0 <= i < |at| ==> at[i] < |states|)
    && (forall i :: 0 <= i < |calls| ==>
         at[i] <= at[i + 1] <= at[i] + 1 && Effect(c, calls[i], states[at[i]], states[at[i + 1]]))
  }

  /** A step for a call that acts has the effect of the call. */
  lemma {:induction false} StepEffect(c: Config, call: Call, s: State, s': State)
    requires GoodConfig(c) && Inv(c, s) && Acts(call, s.live) && Next(c, s, OpOf(call), s')
    ensures Effect(c, call, s, s')
  {
    match call
    case Malloc(size, align) =>
      var r := Rounded(size, align);
      if CanServe(c.header, s.store.blocks, r) {
        var i, data := ServedBlock(c, s, r, s');
        AllocKeeps(c, s, r, i, data, s');
      }
    case Release(_) =>
    case Poke(_, _, _) =>
  }

  lemma {:induction false} ServedBlock(c: Config, s: State, r: Request, s': State) returns (i: nat, data: nat)
    requires NextAlloc(c, s, r, s') && CanServe(c.header, s.store.blocks, r)
    ensures AllocFrom(c.header, s.store, i, r, s'.store)
    ensures data == DataIn(c.header, s.store.blocks, i, r) && s'.live == s.live[data := r]
  {
    var j: nat :| Holder(c.header, s.store.blocks, j, r);
    i :| AllocFrom(c.header, s.store, i, r, s'.store) && s'.live == s.live[DataIn(c.header, s.store.blocks, i, r) := r];
    data := DataIn(c.header, s.store.blocks, i, r);
  }

  lemma {:induction false} TracedSkip(c: Config, calls: seq<Call>, states: seq<State>, at: seq<nat>, call: Call)
    requires states != [] && Traced(c, calls, states, at)
    requires Effect(c, call, states[|states| - 1], states[|states| - 1])
    ensures Traced(c, calls + [call], states, at + [|states| - 1])
  {
    var calls', at' := calls + [call], at + [|states| - 1];
    forall i | 0 <= i < |calls'|
      ensures at'[i] <= at'[i + 1] <= at'[i] + 1 && Effect(c, calls'[i], states[at'[i]], states[at'[i + 1]])
    {
      assert i < |calls| ==> calls'[i] == calls[i] && at'[i] == at[i] && at'[i + 1] == at[i + 1];
    }
  }

  lemma {:induction false} TracedStep(c: Config, calls: seq<Call>, states: seq<State>, at: seq<nat>, call: Call,
      s': State)
    requires states != [] && Traced(c, calls, states, at) && Effect(c, call, states[|states| - 1], s')
    ensures Traced(c, calls + [call], states + [s'], at + [|states|])
  {
    var calls', states', at' := calls + [call], states + [s'], at + [|states|];
    forall i | 0 <= i < |calls'|
      ensures at'[i] <= at'[i + 1] <= at'[i] + 1 && Effect(c, calls'[i], states'[at'[i]], states'[at'[i + 1]])
    {
      assert i < |calls| ==> calls'[i] == calls[i] && at'[i] == at[i] && at'[i + 1] == at[i + 1];
    }
  }

  /** Every call of a script has its effect. */
  lemma {:induction false} ScriptTraced(c: Config, calls: seq<Call>, states: seq<State>, ops: seq<Op>)
    returns (at: seq<nat>)
    requires Run(c, states, ops) && Script(calls, states, ops)
    ensures Traced(c, calls, states, at)
    decreases |calls|
  {
    if calls == [] {
      at := [0];
    } else {
      var call, before := calls[|calls| - 1], calls[..|calls| - 1];
      assert calls == before + [call];
      if !Acts(call, states[|ops|].live) && Script(before, states, ops) {
        at := ScriptTraced(c, before, states, ops);
        TracedSkip(c, before, states, at, call);
        at := at + [|ops|];
      } else {
        var first, s' := states[..|ops|], states[|ops|];
        RunPrefix(c, states, ops);
        at := ScriptTraced(c, before, first, ops[..|ops| - 1]);
        LastEffect(c, call, states, ops);
        TracedStep(c, before, first, at, call, s');
        assert states == first + [s'];
        at := at + [|ops|];
      }
    }
  }

  lemma {:induction false} LastEffect(c: Config, call: Call, states: seq<State>, ops: seq<Op>)
    requires Run(c, states, ops) && ops != []
    requires Acts(call, states[|ops| - 1].live) && ops[|ops| - 1] == OpOf(call)
    ensures Effect(c, call, states[|ops| - 1], states[|ops|])
  {
    var n := |ops| - 1;
    RunInv(c, states, ops, n);
    assert Next(c, states[n], ops[n], states[n + 1]);
    StepEffect(c, call, states[n], states[|ops|]);
  }

  lemma {:induction false} RunPrefix(c: Config, states: seq<State>, ops: seq<Op>)
    requires Run(c, states, ops) && ops != []
    ensures Run(c, states[..|ops|], ops[..|ops| - 1])
  {
    forall n | 0 <= n < |ops| - 1 ensures Next(c, states[..|ops|][n], ops[..|ops| - 1][n], states[..|ops|][n + 1]) {
      assert Next(c, states[n], ops[n], states[n + 1]);
    }
  }

  // ----- one call

  lemma {:induction false} RegionIsHigh(heap: Heap, c: Config, s: State, align: nat)
    requires Layout(c, s.store.blocks) && s.store.blocks == heap.View() && heap.headerLen == c.header
    requires align + c.header <= c.base
    ensures HighEnough(heap, align)
  {
    forall i | 0 <= i < |heap.elems| ensures align + heap.headerLen <= heap.elems[i].addr {
      BlocksInRegion(c, s.store.blocks, i);
      assert heap.View()[i] == BlockOf(heap.elems[i]);
    }
  }

  lemma {:induction false} HandledMore(list: seq<Elem>, header: nat, handles: map<nat, Handle>, live: map<nat, Request>,
      m: nat, elem: Elem, d: nat, r: Request)
    requires Handled(list, header, handles, live) && m <= |list| && elem.addr + header == d
    ensures Handled(InsertAt(list, m, elem), header, handles[d := Handle(elem, r.size)], live[d := r])
  {
    InsertedAt(list, m, elem);
    forall e | e in list ensures e in InsertAt(list, m, elem) {
      var i :| 0 <= i < |list| && list[i] == e;
      assert InsertAt(list, m, elem)[if i < m then i else i + 1] == e;
    }
  }

  /** The element in front of a live pointer is busy. */
  lemma {:induction false} HandleIsBusy(heap: Heap, header: nat, handles: map<nat, Handle>, live: map<nat, Request>,
      d: nat)
    requires heap.ListOk() && Handled(heap.elems, header, handles, live) && Backed(header, heap.View(), live)
    requires d in handles
    ensures exists j :: 0 <= j < |heap.elems| && heap.elems[j] == handles[d].elem && heap.elems[j].state == ElemBusy
  {
    var i :| BusyAt(header, heap.View(), i, d);
    var j :| 0 <= j < |heap.elems| && heap.elems[j] == handles[d].elem;
    assert heap.View()[i] == BlockOf(heap.elems[i]);
    SameAddress(heap, i, j);
  }

  lemma {:induction false} SameAddress(heap: Heap, i: nat, j: nat)
    requires heap.ListOk() && i < |heap.elems| && j < |heap.elems| && heap.elems[i].addr == heap.elems[j].addr
    ensures i == j
  {
    heap.ElemsDistinct();
  }

  /** A call that leaves the heap intact, whether it is served or refused, is a step of the machine. */
  method MallocStep(heap: Heap, ghost c: Config, ghost s: State, size: nat, align: nat, handles: map<nat, Handle>)
    returns (after: map<nat, Handle>, ghost s': State)
    requires Tracks(heap, c, s, handles) && CallOk(c, Malloc(size, align)) && HighEnough(heap, RoundedAlign(align))
    requires size != 0 && KeepsHeap(heap, size, align)
    modifies heap`last, heap`elems, heap`freeHead, heap`allocCount, heap.elems
    ensures Tracks(heap, c, s', after) && Next(c, s, OpOf(Malloc(size, align)), s')
    ensures forall i :: 0 <= i < |heap.elems| ==> heap.elems[i] in old(heap.elems) || fresh(heap.elems[i])
  {
    ghost var r, list := Rounded(size, align), heap.elems;
    var elem, data;
    ghost var k;
    elem, data, k := HeapAlloc(heap, size, align);
    if elem == null {
      RefusalIsStep(c, s, r);
      after, s' := handles, s;
    } else {
      after := handles[data := Handle(elem, CacheLineRoundup(size))];
      s' := Served(heap, c, s, r, k, data, elem, list, handles);
    }
  }

  /** The state after an allocation that was served. */
  lemma {:induction false} Served(heap: Heap, c: Config, s: State, r: Request, k: nat, data: nat, elem: Elem,
      list: seq<Elem>, handles: map<nat, Handle>) returns (s': State)
    requires heap.Valid() && heap.headerLen == c.header && heap.mem.Length == c.limit
    requires MallocHeap.Carved(heap, s.store, list, elem, data, k, r) && Handled(list, c.header, handles, s.live)
    requires IsPow2(r.align) && r.align + c.header <= c.base
    ensures Tracks(heap, c, s', handles[data := Handle(elem, r.size)]) && Next(c, s, HeapRuns.Alloc(r), s')
    ensures forall i :: 0 <= i < |heap.elems| ==> heap.elems[i] in list || heap.elems[i] == elem
  {
    AllocCallIsStep(c, s, r, k, data, Snapshot(heap));
    HandledMore(list, c.header, handles, s.live, k + 1, elem, data, r);
    InsertedThenRemoved(list, k + 1, elem);
    s' := State(Snapshot(heap), s.live[data := r]);
  }

  /** A busy element other than the one freed stays in the list. */
  lemma {:induction false} BusyRemains(heap: Heap, k: nat, j: nat)
    requires k < |heap.elems| && j < |heap.elems| && j != k && heap.elems[j].state == ElemBusy
    ensures heap.elems[j] in heap.Remaining(k)
  {
    var list, v := heap.elems, heap.View();
    assert v[j].busy;
    var right := if JoinsNext(v, k) then list[..k + 1] + list[k + 2..] else list;
    var m := if JoinsNext(v, k) && j > k then j - 1 else j;
    assert right[m] == list[j];
    if JoinsPrev(v, k) {
      assert j != k - 1;
      assert (right[..k] + right[k + 1..])[if m < k then m else m - 1] == list[j];
    }
  }

  /** Every live pointer's element is in the list, and busy. */
  ghost predicate AllBusy(list: seq<Elem>, handles: map<nat, Handle>)
    reads list
  {
    forall d :: d in handles ==> exists j :: 0 <= j < |list| && list[j] == handles[d].elem && list[j].state == ElemBusy
  }

  lemma {:induction false} HandlesAreBusy(heap: Heap, header: nat, handles: map<nat, Handle>, live: map<nat, Request>)
    requires heap.ListOk() && Handled(heap.elems, header, handles, live) && Backed(header, heap.View(), live)
    ensures AllBusy(heap.elems, handles)
  {
    forall d | d in handles
      ensures exists j :: 0 <= j < |heap.elems| && heap.elems[j] == handles[d].elem && heap.elems[j].state == ElemBusy
    {
      HandleIsBusy(heap, header, handles, live, d);
    }
  }

  lemma {:induction false} HandledLess(heap: Heap, header: nat, handles: map<nat, Handle>, live: map<nat, Request>,
      d: nat, k: nat)
    requires Handled(heap.elems, header, handles, live) && AllBusy(heap.elems, handles) && d in handles
    requires k < |heap.elems| && heap.elems[k] == handles[d].elem
    ensures Handled(heap.Remaining(k), header, handles - {d}, live - {d})
  {
    forall e | e in handles && e != d ensures handles[e].elem in heap.Remaining(k) {
      var j :| 0 <= j < |heap.elems| && heap.elems[j] == handles[e].elem && heap.elems[j].state == ElemBusy;
      assert j != k;
      BusyRemains(heap, k, j);
    }
  }

  lemma {:induction false} RemainingIsPart(heap: Heap, k: nat)
    requires k < |heap.elems|
    ensures forall i :: 0 <= i < |heap.Remaining(k)| ==> heap.Remaining(k)[i] in heap.elems
  {
  }

  /** A free through a live pointer is a step of the machine. */
  method ReleaseStep(heap: Heap, ghost c: Config, ghost s: State, d: nat, handles: map<nat, Handle>)
    returns (after: map<nat, Handle>, ghost s': State, ghost k: nat)
    requires Tracks(heap, c, s, handles) && AllBusy(heap.elems, handles) && d in handles
    modifies heap`last, heap`elems, heap`freeHead, heap`allocCount, heap.mem, heap.elems
    ensures Tracks(heap, c, s', after) && s'.live == s.live - {d}
    ensures FreeAt(c.header, s.store, k, s'.store) && s.store.blocks[k].addr + c.header == d
    ensures forall i :: 0 <= i < |heap.elems| ==> heap.elems[i] in old(heap.elems)
  {
    k :| 0 <= k < |heap.elems| && heap.elems[k] == handles[d].elem && heap.elems[k].state == ElemBusy;
    HandledLess(heap, c.header, handles, s.live, d, k);
    RemainingIsPart(heap, k);
    assert s.store.blocks[k] == BlockOf(heap.elems[k]);
    HeapFree(heap, handles[d].elem, k);
    after := handles - {d};
    s' := State(Snapshot(heap), s.live - {d});
  }

  /** A store inside a live block is a step of the machine. */
  method PokeStep(heap: Heap, ghost c: Config, ghost s: State, d: nat, offset: nat, value: Byte,
      handles: map<nat, Handle>) returns (ghost s': State)
    requires Tracks(heap, c, s, handles) && d in handles && offset < handles[d].size && d + offset < heap.mem.Length
    modifies heap.mem
    ensures Tracks(heap, c, s', handles)
    ensures d + offset < |s.store.bytes|
    ensures s' == s.(store := s.store.(bytes := s.store.bytes[d + offset := value]))
  {
    s' := s.(store := s.store.(bytes := s.store.bytes[d + offset := value]));
    SetByte(heap, d + offset, value, s.store, s'.store);
  }

  /** One byte of memory changes, and the heap stays what it was. */
  method SetByte(heap: Heap, a: nat, value: Byte, ghost before: Store, ghost after: Store)
    requires heap.Valid() && before == Snapshot(heap) && a < heap.mem.Length
    requires after == before.(bytes := before.bytes[a := value])
    modifies heap.mem
    ensures heap.Valid() && Snapshot(heap) == after
  {
    assert forall i :: 0 <= i < |heap.elems| ==> heap.elems[i] as object != heap.mem;
    heap.mem[a] := value;
    assert heap.mem[..] == after.bytes;
  }

  // ----- sequences of calls

  /** The objects are in the last state of a run of the machine, which made the operations of the calls. */
  ghost predicate Follows(heap: Heap, c: Config, calls: seq<Call>, states: seq<State>, ops: seq<Op>,
      handles: map<nat, Handle>)
    reads heap, heap.elems, heap.mem
  {
    && Run(c, states, ops)
    && Script(calls, states, ops)
    && Tracks(heap, c, states[|ops|], handles)
  }

  lemma {:induction false} RunMore(c: Config, calls: seq<Call>, states: seq<State>, ops: seq<Op>, call: Call, s': State)
    requires Run(c, states, ops) && Script(calls, states, ops)
    requires Acts(call, states[|ops|].live) && Next(c, states[|ops|], OpOf(call), s')
    ensures Run(c, states + [s'], ops + [OpOf(call)]) && Script(calls + [call], states + [s'], ops + [OpOf(call)])
  {
    var states', ops' := states + [s'], ops + [OpOf(call)];
    forall n | 0 <= n < |ops'| ensures Next(c, states'[n], ops'[n], states'[n + 1]) {
      if n < |ops| {
        assert Next(c, states[n], ops[n], states[n + 1]);
      }
    }
    ScriptMore(calls, states, ops, call, s');
  }

  lemma {:induction false} ScriptMore(calls: seq<Call>, states: seq<State>, ops: seq<Op>, call: Call, s': State)
    requires |states| == |ops| + 1 && Script(calls, states, ops) && Acts(call, states[|ops|].live)
    ensures Script(calls + [call], states + [s'], ops + [OpOf(call)])
  {
    assert (calls + [call])[..|calls|] == calls;
    assert (states + [s'])[..|ops| + 1] == states;
    assert (ops + [OpOf(call)])[..|ops|] == ops;
  }

  lemma {:induction false} ScriptSkip(calls: seq<Call>, states: seq<State>, ops: seq<Op>, call: Call)
    requires |states| == |ops| + 1 && Script(calls, states, ops) && !Acts(call, states[|ops|].live)
    ensures Script(calls + [call], states, ops)
  {
    assert (calls + [call])[..|calls|] == calls;
  }

  /** What the invariant of the run gives the next call. */
  lemma {:induction false} Ready(heap: Heap, c: Config, calls: seq<Call>, states: seq<State>, ops: seq<Op>,
      handles: map<nat, Handle>, align: nat)
    requires Follows(heap, c, calls, states, ops, handles)
    ensures AllBusy(heap.elems, handles)
    ensures align + c.header <= c.base ==> HighEnough(heap, align)
  {
    RunInv(c, states, ops, |ops|);
    HandlesAreBusy(heap, c.header, handles, states[|ops|].live);
    if align + c.header <= c.base {
      RegionIsHigh(heap, c, states[|ops|], align);
    }
  }

  lemma {:induction false} PokeInside(c: Config, states: seq<State>, ops: seq<Op>, d: nat)
    requires Run(c, states, ops) && d in states[|ops|].live
    ensures d + states[|ops|].live[d].size <= |states[|ops|].store.bytes|
  {
    RunInv(c, states, ops, |ops|);
    var i := BlockOfLive(c, states[|ops|], d);
  }

  method ActMalloc(heap: Heap, ghost c: Config, size: nat, align: nat, handles: map<nat, Handle>,
      ghost calls: seq<Call>, ghost states: seq<State>, ghost ops: seq<Op>)
    returns (after: map<nat, Handle>, ghost s': State)
    requires Follows(heap, c, calls, states, ops, handles) && CallOk(c, Malloc(size, align))
    requires size != 0 && KeepsHeap(heap, size, align)
    modifies heap`last, heap`elems, heap`freeHead, heap`allocCount, heap.elems
    ensures var call := Malloc(size, align);
      Follows(heap, c, calls + [call], states + [s'], ops + [OpOf(call)], after)
    ensures forall i :: 0 <= i < |heap.elems| ==> heap.elems[i] in old(heap.elems) || fresh(heap.elems[i])
  {
    Ready(heap, c, calls, states, ops, handles, RoundedAlign(align));
    after, s' := MallocStep(heap, c, states[|ops|], size, align, handles);
    RunMore(c, calls, states, ops, Malloc(size, align), s');
  }

  method ActRelease(heap: Heap, ghost c: Config, d: nat, handles: map<nat, Handle>,
      ghost calls: seq<Call>, ghost states: seq<State>, ghost ops: seq<Op>)
    returns (after: map<nat, Handle>, ghost s': State)
    requires Follows(heap, c, calls, states, ops, handles) && d in handles
    modifies heap`last, heap`elems, heap`freeHead, heap`allocCount, heap.mem, heap.elems
    ensures var call := Release(d); Follows(heap, c, calls + [call], states + [s'], ops + [OpOf(call)], after)
    ensures forall i :: 0 <= i < |heap.elems| ==> heap.elems[i] in old(heap.elems)
  {
    Ready(heap, c, calls, states, ops, handles, 1);
    ghost var k;
    after, s', k := ReleaseStep(heap, c, states[|ops|], d, handles);
    RunInv(c, states, ops, |ops|);
    FreeCallIsStep(c, states[|ops|], k, d, s'.store);
    RunMore(c, calls, states, ops, Release(d), s');
  }

  method ActPoke(heap: Heap, ghost c: Config, d: nat, offset: nat, value: Byte, handles: map<nat, Handle>,
      ghost calls: seq<Call>, ghost states: seq<State>, ghost ops: seq<Op>) returns (ghost s': State)
    requires Follows(heap, c, calls, states, ops, handles) && d in handles && offset < handles[d].size
    modifies heap.mem
    ensures var call := Poke(d, offset, value);
      Follows(heap, c, calls + [call], states + [s'], ops + [OpOf(call)], handles)
  {
    PokeInside(c, states, ops, d);
    s' := PokeStep(heap, c, states[|ops|], d, offset, value, handles);
    RunMore(c, calls, states, ops, Poke(d, offset, value), s');
  }

  /** The call would leave the heap without room for a header. */
  predicate Spoils(heap: Heap, call: Call)
    reads heap`freeHead
    reads set b, i | 0 <= b < |heap.freeHead| && 0 <= i < |heap.freeHead[b]| :: heap.freeHead[b][i]
    reads if call.Malloc? && RoundedAlign(call.align) > 0 then {Chosen(heap, call.size, call.align)} else {}
  {
    call.Malloc? && RoundedAlign(call.align) > 0 && !KeepsHeap(heap, call.size, call.align)
  }

  /** One call: a step of the run if it acts, and nothing otherwise. */
  method Act(heap: Heap, ghost c: Config, call: Call, handles: map<nat, Handle>,
      ghost calls: seq<Call>, ghost states: seq<State>, ghost ops: seq<Op>)
    returns (after: map<nat, Handle>, ghost states': seq<State>, ghost ops': seq<Op>)
    requires Follows(heap, c, calls, states, ops, handles) && CallOk(c, call) && !Spoils(heap, call)
    modifies heap`last, heap`elems, heap`freeHead, heap`allocCount, heap.mem, heap.elems
    ensures Follows(heap, c, calls + [call], states', ops', after)
    ensures forall i :: 0 <= i < |heap.elems| ==> heap.elems[i] in old(heap.elems) || fresh(heap.elems[i])
  {
    ghost var s';
    after := handles;
    var acts := match call
      case Malloc(size, _) => size != 0
      case Release(d) => d in handles
      case Poke(d, offset, _) => d in handles && offset < handles[d].size;
    if !acts {
      ScriptSkip(calls, states, ops, call);
      states', ops' := states, ops;
      return;
    }
    match call {
      case Malloc(size, align) => after, s' := ActMalloc(heap, c, size, align, handles, calls, states, ops);
      case Release(d) => after, s' := ActRelease(heap, c, d, handles, calls, states, ops);
      case Poke(d, offset, value) => s' := ActPoke(heap, c, d, offset, value, handles, calls, states, ops);
    }
    states', ops' := states + [s'], ops + [OpOf(call)];
  }

  lemma OneMoreCall(calls: seq<Call>, n: nat)
    requires n < |calls|
    ensures calls[..n + 1] == calls[..n] + [calls[n]]
  {
  }

  method CreateSession(headerLen: nat, mem: array<Byte>, base: nat, len: nat)
    returns (heap: Heap, ghost states: seq<State>)
    requires 0 < headerLen <= len && base + len <= mem.Length < TWO_64
    ensures fresh(heap) && heap.mem == mem && fresh(heap.elems)
    ensures Follows(heap, Config(headerLen, base, len, mem.Length), [], states, [], map[])
  {
    heap := MallocHeapCreate(headerLen, mem, base, len, true, true);
    states := [State(Snapshot(heap), map[])];
    RunStarts(heap, Config(headerLen, base, len, mem.Length), states);
  }

  lemma {:induction false} RunStarts(heap: Heap, c: Config, states: seq<State>)
    requires heap.Valid() && GoodConfig(c) && heap.headerLen == c.header && heap.mem.Length == c.limit
    requires states == [State(Snapshot(heap), map[])] && Init(c, states[0])
    ensures Follows(heap, c, [], states, [], map[])
  {
  }

  /**
   Creates a heap and makes the calls one after another, up to the first that would spoil the heap. The state
   sequence is a run of the machine whose operations are those of the calls made, each call has its effect on it, and
   the objects and the pointers handed out are those of its last state, so everything HeapRuns proves of runs holds
   of the heap and the memory.
   */
  method RunCalls(headerLen: nat, mem: array<Byte>, base: nat, len: nat, calls: seq<Call>)
    returns (heap: Heap, handles: map<nat, Handle>, done: nat, ghost states: seq<State>, ghost ops: seq<Op>,
      ghost at: seq<nat>)
    requires 0 < headerLen <= len && base + len <= mem.Length < TWO_64
    requires forall i :: 0 <= i < |calls| ==> CallOk(Config(headerLen, base, len, mem.Length), calls[i])
    modifies mem
    ensures done <= |calls|
    ensures Follows(heap, Config(headerLen, base, len, mem.Length), calls[..done], states, ops, handles)
    ensures Traced(Config(headerLen, base, len, mem.Length), calls[..done], states, at)
    ensures handles.Keys == states[|ops|].live.Keys
    ensures done < |calls| ==>
      calls[done].Malloc? && RoundedAlign(calls[done].align) > 0
      && !KeepsHeap(heap, calls[done].size, calls[done].align)
  {
    ghost var c := Config(headerLen, base, len, mem.Length);
    handles, done, ops := map[], 0, [];
    heap, states := CreateSession(headerLen, mem, base, len);
    while done < |calls| && !Spoils(heap, calls[done])
      invariant done <= |calls| && fresh(heap) && heap.mem == mem
      invariant forall i :: 0 <= i < |heap.elems| ==> fresh(heap.elems[i])
      invariant Follows(heap, c, calls[..done], states, ops, handles)
      decreases |calls| - done
    {
      OneMoreCall(calls, done);
      ghost var list := heap.elems;
      handles, states, ops := Act(heap, c, calls[done], handles, calls[..done], states, ops);
      forall i | 0 <= i < |heap.elems| ensures fresh(heap.elems[i]) {
        assert heap.elems[i] in list ==> exists j :: 0 <= j < |list| && list[j] == heap.elems[i];
      }
      done := done + 1;
    }
    at := ScriptTraced(c, calls[..done], states, ops);
  }
}
