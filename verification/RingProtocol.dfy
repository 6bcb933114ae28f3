/**
 The ring shared by any number of producer and consumer threads, as a machine
 whose steps are the loads, compare-and-sets and stores of ring.c one at a time.

 The same step function runs under two arithmetics: on 32-bit counters, as the
 code does, and on counters that never wrap.
 */
module RingProtocol {
  import opened Bits
  import opened QueueSpec
  import opened RingCopy

  datatype Side = Producer | Consumer {
    function Other(): Side {
      if Producer? then Consumer else Producer
    }
  }

  datatype Arith = Unbounded | Bits32

  function Wrap(a: Arith, x: int): int {
    if a == Bits32 then Word32(x) else x
  }

  /** What creation fixed: the ring's size in elements, its usable capacity, words per element, and the sync types. */
  datatype Config = Config(size: nat, capacity: nat, scale: nat, prodSingle: bool, consSingle: bool) {
    ghost predicate Ok() {
      IsPow2(size) && size <= TWO_31 && capacity < size && scale > 0 && Lap() > 0 && 2 * Lap() <= TWO_32
    }

    /** Words in one lap of the ring. */
    function Lap(): int {
      size * scale
    }

    predicate Single(side: Side) {
      if side == Producer then prodSingle else consSingle
    }

    /** What a side may move beyond the opposite tail. */
    function Bias(side: Side): nat {
      if side == Producer then capacity else 0
    }
  }

  datatype HeadTail = HeadTail(head: int, tail: int)

  /** A call to enqueue or dequeue up to max elements; a producer brings its object table. */
  datatype Request = Request(side: Side, max: nat, behavior: Behavior, objs: seq<Word>)

  predicate RequestOk(c: Config, req: Request) {
    req.max < TWO_32 && |req.objs| == if req.side == Producer then req.max * c.scale else 0
  }

  /**
   Where a thread is in do_enqueue_elem or do_dequeue_elem, with its local variables:
   lo is old_head, room is free_entries or entries, moved the words copied so far.
   */
  datatype Thread =
    | Idle
    | LoadHead(req: Request)
    | LoadTail(req: Request, lo: int)
    | Test(req: Request, lo: int, room: int)
    | Commit(req: Request, lo: int, room: int, n: int)
    | Copy(req: Request, lo: int, room: int, n: int, moved: seq<Word>)
    | Wait(req: Request, lo: int, room: int, n: int, moved: seq<Word>)
    | Publish(req: Request, lo: int, room: int, n: int, moved: seq<Word>)
    | Done(req: Request, lo: int, room: int, n: int, moved: seq<Word>)
  {
    /** Holding a loaded head, before the reservation. */
    predicate Loaded() {
      LoadTail? || Test? || Commit?
    }

    /** Holding a reservation not yet published. */
    predicate InFlight() {
      Copy? || Wait? || Publish?
    }

    predicate On(side: Side) {
      !Idle? && req.side == side
    }

    predicate Holds(side: Side) {
      InFlight() && req.side == side
    }
  }

  datatype State = State(prod: HeadTail, cons: HeadTail, slots: seq<Word>, threads: seq<Thread>) {
    function Own(side: Side): HeadTail {
      if side == Producer then prod else cons
    }

    function Opposite(side: Side): HeadTail {
      Own(side.Other())
    }

    function WithOwn(side: Side, ht: HeadTail): State {
      if side == Producer then this.(prod := ht) else this.(cons := ht)
    }

    function WithThread(t: nat, th: Thread): State
      requires t < |threads|
    {
      this.(threads := threads[t := th])
    }
  }

  /** The slot of word k of a copy starting at element position lo: masked start, then onwards with wrap-around. */
  function CopySlot(c: Config, lo: int, k: nat): (j: nat)
    requires c.size > 0 && c.Lap() > 0
    ensures j < c.Lap()
  {
    MulNonNegative(c.scale, lo % c.size);
    Slot((lo % c.size) * c.scale, k, c.Lap())
  }

  /** Word k of the object table. */
  function ObjWord(req: Request, k: nat): Word {
    if k < |req.objs| then req.objs[k] else 0
  }

  /** The first count words of the object table. */
  function ObjWords(req: Request, count: int): (r: seq<Word>)
    ensures |r| == if count >= 0 then count else 0
  {
    seq(if count >= 0 then count else 0, k requires k >= 0 => ObjWord(req, k))
  }

  // ----- steps

  datatype Label =
    | Begin(t: nat, req: Request)   // an idle thread calls enqueue or dequeue
    | Go(t: nat)                    // a thread executes its next instruction

  /** A call that the documented use of the ring allows: a single-threaded side has no other call under way. */
  predicate MayBegin(c: Config, s: State, req: Request) {
    && RequestOk(c, req)
    && (c.Single(req.side) ==> forall u :: 0 <= u < |s.threads| ==> !s.threads[u].On(req.side))
  }

  function Next(a: Arith, c: Config, s: State, l: Label): (s': State)
    requires c.size > 0 && |s.slots| == c.Lap() > 0
    ensures |s'.slots| == |s.slots| && |s'.threads| == |s.threads|
  {
    if l.t >= |s.threads| then s
    else
      match l
      case Begin(t, req) =>
        if s.threads[t].Idle? && MayBegin(c, s, req) then s.WithThread(t, LoadHead(req)) else s
      case Go(t) =>
        match s.threads[t]
        case Idle => s
        case LoadHead(req) => s.WithThread(t, LoadTail(req, s.Own(req.side).head))
        case LoadTail(req, lo) =>
          s.WithThread(t, Test(req, lo, Wrap(a, c.Bias(req.side) + s.Opposite(req.side).tail - lo)))
        case Test(req, lo, room) => s.WithThread(t, AfterTest(req, lo, room))
        case Commit(req, lo, room, n) => DoCommit(a, c, s, t)
        case Copy(req, lo, room, n, moved) => DoCopy(c, s, t)
        case Wait(req, lo, room, n, moved) =>
          if s.Own(req.side).tail == lo then s.WithThread(t, Publish(req, lo, room, n, moved)) else s
        case Publish(req, lo, room, n, moved) =>
          s.WithOwn(req.side, s.Own(req.side).(tail := Wrap(a, lo + n))).WithThread(t, Done(req, lo, room, n, moved))
        case Done(_, _, _, _, _) => s.WithThread(t, Idle)
  }

  /** The room test: give up, or go on with the number of elements to reserve. */
  function AfterTest(req: Request, lo: int, room: int): Thread {
    var n := if req.max > room then (if req.behavior == Fixed then 0 else room) else req.max;
    if n == 0 then Done(req, lo, room, 0, []) else Commit(req, lo, room, n)
  }

  /** The store (single) or compare-and-set (multi) of the head; a failed compare-and-set starts over. */
  function DoCommit(a: Arith, c: Config, s: State, t: nat): (s': State)
    requires t < |s.threads| && s.threads[t].Commit?
    ensures |s'.slots| == |s.slots| && |s'.threads| == |s.threads|
  {
    var Commit(req, lo, room, n) := s.threads[t];
    var own := s.Own(req.side);
    if c.Single(req.side) || own.head == lo then
      s.WithOwn(req.side, own.(head := Wrap(a, lo + n))).WithThread(t, Copy(req, lo, room, n, []))
    else
      s.WithThread(t, LoadHead(req))
  }

  /** One word of the copy, or its end; only a multi-threaded side then waits for its turn. */
  function DoCopy(c: Config, s: State, t: nat): (s': State)
    requires c.size > 0 && |s.slots| == c.Lap() > 0
    requires t < |s.threads| && s.threads[t].Copy?
    ensures |s'.slots| == |s.slots| && |s'.threads| == |s.threads|
  {
    var Copy(req, lo, room, n, moved) := s.threads[t];
    var j := CopySlot(c, lo, |moved|);
    if |moved| < n * c.scale then
      if req.side == Producer then
        var w := ObjWord(req, |moved|);
        s.(slots := s.slots[j := w]).WithThread(t, Copy(req, lo, room, n, moved + [w]))
      else
        s.WithThread(t, Copy(req, lo, room, n, moved + [s.slots[j]]))
    else if c.Single(req.side) then
      s.WithThread(t, Publish(req, lo, room, n, moved))
    else
      s.WithThread(t, Wait(req, lo, room, n, moved))
  }

  // ----- runs

  function Initial(c: Config, threads: nat): (s: State)
    requires c.size > 0 && c.Lap() > 0
    ensures |s.slots| == c.Lap()
  {
    State(HeadTail(0, 0), HeadTail(0, 0), seq(c.Lap(), i => 0), seq(threads, i => Idle))
  }

  /** The state after a schedule; labels that are not enabled change nothing, so every sequence of labels is a run. */
  function Run(a: Arith, c: Config, threads: nat, ls: seq<Label>): (s: State)
    requires c.size > 0 && c.Lap() > 0
    ensures |s.slots| == c.Lap() && |s.threads| == threads
    decreases |ls|
  {
    if ls == [] then Initial(c, threads)
    else Next(a, c, Run(a, c, threads, ls[..|ls| - 1]), ls[|ls| - 1])
  }

  /**
   The unbounded run together with what it did: the words enqueued in the order of their reservations, the
   words dequeued in the order of publication, and the unpublished reservations of each side, oldest first.
   */
  datatype Logged = Logged(s: State, enqueued: seq<Word>, dequeued: seq<Word>, prodQueue: seq<nat>,
      consQueue: seq<nat>) {
    function Queue(side: Side): seq<nat> {
      if side == Producer then prodQueue else consQueue
    }

    function WithQueue(side: Side, q: seq<nat>): Logged {
      if side == Producer then this.(prodQueue := q) else this.(consQueue := q)
    }
  }

  function NextLogged(c: Config, g: Logged, l: Label): (g': Logged)
    requires c.size > 0 && |g.s.slots| == c.Lap() > 0
    ensures g'.s == Next(Unbounded, c, g.s, l)
  {
    var s' := Next(Unbounded, c, g.s, l);
    if l.Go? && l.t < |g.s.threads| then
      var th, th' := g.s.threads[l.t], s'.threads[l.t];
      if th.Commit? && th'.Copy? then Reserved(c, g, th, l.t).(s := s')
      else if th.Publish? then Published(g, th).(s := s')
      else g.(s := s')
    else g.(s := s')
  }

  function Reserved(c: Config, g: Logged, th: Thread, t: nat): Logged
    requires th.Commit?
  {
    var g' := g.WithQueue(th.req.side, g.Queue(th.req.side) + [t]);
    if th.req.side == Producer then
      g'.(enqueued := g.enqueued + ObjWords(th.req, th.n * c.scale))
    else g'
  }

  function Published(g: Logged, th: Thread): Logged
    requires th.Publish?
  {
    var q := g.Queue(th.req.side);
    var g' := g.WithQueue(th.req.side, if q == [] then [] else q[1..]);
    if th.req.side == Consumer then g'.(dequeued := g.dequeued + th.moved) else g'
  }

  function RunLogged(c: Config, threads: nat, ls: seq<Label>): (g: Logged)
    requires c.size > 0 && c.Lap() > 0
    ensures g.s == Run(Unbounded, c, threads, ls)
    decreases |ls|
  {
    if ls == [] then Logged(Initial(c, threads), [], [], [], [])
    else NextLogged(c, RunLogged(c, threads, ls[..|ls| - 1]), ls[|ls| - 1])
  }
}
