/** Whole runs of a ring used by one thread at a time: it is a bounded first-in first-out queue. */
module QueueRun {
  import opened QueueSpec
  import opened RingCopy
  import R = Ring

  /** A queue of at most capacity elements, kept as their words, oldest first. */
  datatype Queue = Queue(count: nat, words: seq<Word>)

  datatype Op =
    | Enqueue(obj: seq<Word>, max: nat, behavior: Behavior, single: bool)
    | Dequeue(max: nat, behavior: Behavior, single: bool)

  /** The number of elements moved, the free space or the elements left, and the words handed out. */
  datatype Out = Out(n: nat, left: nat, words: seq<Word>)

  ghost predicate QueueOk(q: Queue, capacity: nat, scale: nat) {
    q.count <= capacity && |q.words| == R.Words(q.count, scale)
  }

  ghost predicate OpOk(op: Op, scale: nat) {
    op.Enqueue? ==> |op.obj| == R.Words(op.max, scale)
  }

  ghost function Moved(q: Queue, capacity: nat, op: Op): (n: nat)
    requires q.count <= capacity
    ensures n <= op.max && n <= if op.Enqueue? then capacity - q.count else q.count
  {
    Granted(op.max, if op.Enqueue? then capacity - q.count else q.count, op.behavior)
  }

  ghost function StepQueue(q: Queue, capacity: nat, scale: nat, op: Op): (r: Queue)
    requires QueueOk(q, capacity, scale) && OpOk(op, scale)
    ensures QueueOk(r, capacity, scale)
  {
    var n := Moved(q, capacity, op);
    R.WordsOrder(n, op.max, scale);
    match op
    case Enqueue(obj, _, _, _) =>
      R.WordsAdd(q.count, n, scale);
      Queue(q.count + n, q.words + obj[..R.Words(n, scale)])
    case Dequeue(_, _, _) =>
      R.WordsAdd(n, q.count - n, scale);
      Queue(q.count - n, q.words[R.Words(n, scale)..])
  }

  ghost function StepOut(q: Queue, capacity: nat, scale: nat, op: Op): Out
    requires QueueOk(q, capacity, scale) && OpOk(op, scale)
  {
    var n := Moved(q, capacity, op);
    match op
    case Enqueue(_, _, _, _) => Out(n, capacity - q.count - n, [])
    case Dequeue(_, _, _) =>
      R.WordsOrder(n, q.count, scale);
      Out(n, q.count - n, q.words[..R.Words(n, scale)])
  }

  /** The queue after the given operations. */
  ghost function After(q: Queue, capacity: nat, scale: nat, ops: seq<Op>): (r: Queue)
    requires QueueOk(q, capacity, scale) && forall op :: op in ops ==> OpOk(op, scale)
    ensures QueueOk(r, capacity, scale)
  {
    if ops == [] then q
    else StepQueue(After(q, capacity, scale, ops[..|ops| - 1]), capacity, scale, ops[|ops| - 1])
  }

  /** What the operations report and hand out, one by one. */
  ghost function Outs(q: Queue, capacity: nat, scale: nat, ops: seq<Op>): (r: seq<Out>)
    requires QueueOk(q, capacity, scale) && forall op :: op in ops ==> OpOk(op, scale)
    ensures |r| == |ops|
  {
    if ops == [] then []
    else
      var before := ops[..|ops| - 1];
      Outs(q, capacity, scale, before) + [StepOut(After(q, capacity, scale, before), capacity, scale, ops[|ops| - 1])]
  }

  /** All words that enqueues took in, in order. */
  ghost function Accepted(q: Queue, capacity: nat, scale: nat, ops: seq<Op>): seq<Word>
    requires QueueOk(q, capacity, scale) && forall op :: op in ops ==> OpOk(op, scale)
  {
    if ops == [] then []
    else
      var before, op := ops[..|ops| - 1], ops[|ops| - 1];
      Accepted(q, capacity, scale, before) +
      if op.Dequeue? then [] else TakenIn(After(q, capacity, scale, before), capacity, scale, op)
  }

  ghost function TakenIn(q: Queue, capacity: nat, scale: nat, op: Op): seq<Word>
    requires QueueOk(q, capacity, scale) && OpOk(op, scale) && op.Enqueue?
  {
    var n := Moved(q, capacity, op);
    R.WordsOrder(n, op.max, scale);
    op.obj[..R.Words(n, scale)]
  }

  ghost function Delivered(outs: seq<Out>): seq<Word> {
    if outs == [] then [] else Delivered(outs[..|outs| - 1]) + outs[|outs| - 1].words
  }

  /** Nothing is lost, duplicated or reordered over any run: what came in is what went out and what is left. */
  lemma {:induction false} FirstInFirstOut(q: Queue, capacity: nat, scale: nat, ops: seq<Op>)
    requires QueueOk(q, capacity, scale) && forall op :: op in ops ==> OpOk(op, scale)
    ensures q.words + Accepted(q, capacity, scale, ops)
         == Delivered(Outs(q, capacity, scale, ops)) + After(q, capacity, scale, ops).words
  {
    if ops == [] {
    } else {
      var before, op := ops[..|ops| - 1], ops[|ops| - 1];
      FirstInFirstOut(q, capacity, scale, before);
      StepKeepsOrder(q.words, Accepted(q, capacity, scale, before), Outs(q, capacity, scale, before),
                     After(q, capacity, scale, before), capacity, scale, op);
    }
  }

  lemma {:induction false} StepKeepsOrder(start: seq<Word>, accepted: seq<Word>, outs: seq<Out>, q: Queue,
      capacity: nat, scale: nat, op: Op)
    requires QueueOk(q, capacity, scale) && OpOk(op, scale)
    requires start + accepted == Delivered(outs) + q.words
    ensures start + (accepted + if op.Dequeue? then [] else TakenIn(q, capacity, scale, op))
         == Delivered(outs + [StepOut(q, capacity, scale, op)]) + StepQueue(q, capacity, scale, op).words
  {
    DeliveredAppend(outs, StepOut(q, capacity, scale, op));
    if op.Enqueue? {
      AppendBoth(start, accepted, Delivered(outs), q.words, TakenIn(q, capacity, scale, op));
    } else {
      TakeFromFront(start, accepted, Delivered(outs), q.words, R.Words(Moved(q, capacity, op), scale));
    }
  }

  lemma {:induction false} DeliveredAppend(outs: seq<Out>, out: Out)
    ensures Delivered(outs + [out]) == Delivered(outs) + out.words
  {
    assert (outs + [out])[..|outs|] == outs;
  }

  lemma {:induction false} AppendBoth(start: seq<Word>, accepted: seq<Word>, delivered: seq<Word>, words: seq<Word>,
      t: seq<Word>)
    requires start + accepted == delivered + words
    ensures start + (accepted + t) == delivered + [] + (words + t)
  {
    assert start + (accepted + t) == (start + accepted) + t;
    assert delivered + [] + (words + t) == (delivered + words) + t;
  }

  lemma {:induction false} TakeFromFront(start: seq<Word>, accepted: seq<Word>, delivered: seq<Word>,
      words: seq<Word>, n: nat)
    requires start + accepted == delivered + words && n <= |words|
    ensures start + (accepted + []) == delivered + words[..n] + words[n..]
  {
    assert words == words[..n] + words[n..];
    assert accepted + [] == accepted;
  }

  /** The ring as a queue. */
  ghost function QueueOf(r: R.Ring): (q: Queue)
    requires r.Valid()
    reads r, r.prod, r.cons, r.slots
  {
    Queue(r.Count(), r.Contents())
  }

  /** Any sequence of enqueues and dequeues on a ring does and reports what the queue does. */
  method RunOps(r: R.Ring, ops: seq<Op>) returns (outs: seq<Out>)
    requires r.Valid() && forall op :: op in ops ==> OpOk(op, Scale(r.esize))
    modifies r`enqueued, r`dequeued, r.prod`head, r.prod`tail, r.cons`head, r.cons`tail, r.slots
    ensures r.Valid() && r.capacity == old(r.capacity)
    ensures QueueOk(old(QueueOf(r)), r.capacity, Scale(r.esize))
    ensures QueueOf(r) == After(old(QueueOf(r)), r.capacity, Scale(r.esize), ops)
    ensures outs == Outs(old(QueueOf(r)), r.capacity, Scale(r.esize), ops)
  {
    ghost var q, scale := QueueOf(r), Scale(r.esize);
    outs := [];
    for i := 0 to |ops|
      invariant r.Valid() && r.capacity == old(r.capacity)
      invariant QueueOk(q, r.capacity, scale)
      invariant QueueOf(r) == After(q, r.capacity, scale, ops[..i])
      invariant outs == Outs(q, r.capacity, scale, ops[..i])
    {
      var out := RunOp(r, ops[i]);
      outs := outs + [out];
      assert ops[..i + 1][..i] == ops[..i];
    }
    assert ops[..|ops|] == ops;
  }

  method RunOp(r: R.Ring, op: Op) returns (out: Out)
    requires r.Valid() && OpOk(op, Scale(r.esize))
    modifies r`enqueued, r`dequeued, r.prod`head, r.prod`tail, r.cons`head, r.cons`tail, r.slots
    ensures r.Valid()
    ensures QueueOk(old(QueueOf(r)), r.capacity, Scale(r.esize))
    ensures QueueOf(r) == StepQueue(old(QueueOf(r)), r.capacity, Scale(r.esize), op)
    ensures out == StepOut(old(QueueOf(r)), r.capacity, Scale(r.esize), op)
  {
    if op.Enqueue? {
      out := RunEnqueue(r, op);
    } else {
      out := RunDequeue(r, op);
    }
  }

  lemma {:induction false} QueueOfOk(r: R.Ring)
    requires r.Valid()
    ensures QueueOk(QueueOf(r), r.capacity, Scale(r.esize))
  {
  }

  lemma {:induction false} EnqueueIs(q: Queue, capacity: nat, scale: nat, op: Op, room: int, n: nat, q': Queue)
    requires QueueOk(q, capacity, scale) && OpOk(op, scale) && op.Enqueue?
    requires room == capacity - q.count && n == Granted(op.max, room, op.behavior) && R.Words(n, scale) <= |op.obj|
    requires q' == Queue(q.count + n, q.words + op.obj[..R.Words(n, scale)])
    ensures StepQueue(q, capacity, scale, op) == q' && StepOut(q, capacity, scale, op) == Out(n, room - n, [])
  {
  }

  lemma {:induction false} DequeueIs(q: Queue, capacity: nat, scale: nat, op: Op, n: nat, got: seq<Word>, q': Queue)
    requires QueueOk(q, capacity, scale) && OpOk(op, scale) && op.Dequeue?
    requires n == Granted(op.max, q.count, op.behavior) && |got| == R.Words(n, scale)
    requires q'.count == q.count - n && got + q'.words == q.words
    ensures StepQueue(q, capacity, scale, op) == q' && StepOut(q, capacity, scale, op) == Out(n, q'.count, got)
  {
    assert q.words[..|got|] == got && q.words[|got|..] == q'.words;
  }

  method RunEnqueue(r: R.Ring, op: Op) returns (out: Out)
    requires r.Valid() && OpOk(op, Scale(r.esize)) && op.Enqueue?
    modifies r`enqueued, r.prod`head, r.prod`tail, r.slots
    ensures r.Valid() && QueueOk(old(QueueOf(r)), r.capacity, Scale(r.esize))
    ensures QueueOf(r) == StepQueue(old(QueueOf(r)), r.capacity, Scale(r.esize), op)
    ensures out == StepOut(old(QueueOf(r)), r.capacity, Scale(r.esize), op)
  {
    QueueOfOk(r);
    ghost var q, room := QueueOf(r), r.capacity - r.Count();
    var n, freeSpace := r.DoEnqueueElem(op.obj, op.max, op.behavior, op.single);
    EnqueueIs(q, r.capacity, Scale(r.esize), op, room, n, QueueOf(r));
    out := Out(n, freeSpace, []);
  }

  method RunDequeue(r: R.Ring, op: Op) returns (out: Out)
    requires r.Valid() && OpOk(op, Scale(r.esize)) && op.Dequeue?
    modifies r`dequeued, r.cons`head, r.cons`tail
    ensures r.Valid() && QueueOk(old(QueueOf(r)), r.capacity, Scale(r.esize))
    ensures QueueOf(r) == StepQueue(old(QueueOf(r)), r.capacity, Scale(r.esize), op)
    ensures out == StepOut(old(QueueOf(r)), r.capacity, Scale(r.esize), op)
  {
    QueueOfOk(r);
    ghost var q := QueueOf(r);
    var table := new Word[R.Words(op.max, Scale(r.esize))];
    var n, available := r.DoDequeueElem(table, op.max, op.behavior, op.single);
    DequeueIs(q, r.capacity, Scale(r.esize), op, n, table[..R.Words(n, Scale(r.esize))], QueueOf(r));
    out := Out(n, available, table[..R.Words(n, Scale(r.esize))]);
  }
}
