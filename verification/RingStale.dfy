/**
 Reachable runs in which one thread sleeps between loading its head and going on while others pass elements along:
 how large the room it then computes can get, on the code's 32-bit words, and when it refuses what an empty ring
 could serve.
 */
module RingStale {
  import opened Bits
  import opened QueueSpec
  import opened RingProtocol
  import opened RingInvariant
  import opened RingSteps
  import opened RingTraces
  import opened RingSolo
  import opened RingWords

  lemma RunSnoc(a: Arith, c: Config, threads: nat, ls: seq<Label>, l: Label)
    requires c.size > 0 && c.Lap() > 0
    ensures Run(a, c, threads, ls + [l]) == Next(a, c, Run(a, c, threads, ls), l)
  {
    assert (ls + [l])[..|ls|] == ls;
  }

  lemma ExactSnoc(c: Config, threads: nat, ls: seq<Label>, l: Label)
    requires c.size > 0 && c.Lap() > 0 && ExactRun(c, threads, ls)
    requires StepExact(c, Run(Unbounded, c, threads, ls), l)
    ensures ExactRun(c, threads, ls + [l])
  {
    var longer := ls + [l];
    assert longer[..|ls|] == ls;
    forall j | 0 <= j < |longer| ensures StepExact(c, Run(Unbounded, c, threads, longer[..j]), longer[j]) {
      assert j < |ls| ==> longer[..j] == ls[..j];
    }
  }

  // ----- calls that nobody interrupts, as parts of a run

  /** The thread's loaded head, if any, is the current one. */
  predicate UpToDate(s: State, t: nat) {
    t < |s.threads| && (s.threads[t].Loaded() ==> s.threads[t].lo == s.Own(s.threads[t].req.side).head)
  }

  lemma UpToDateNext(c: Config, s: State, t: nat)
    requires c.size > 0 && |s.slots| == c.Lap() > 0 && UpToDate(s, t)
    ensures UpToDate(Next(Unbounded, c, s, Go(t)), t)
  {
  }

  lemma UpToDateExact(c: Config, s: State, t: nat)
    requires c.Ok() && Counters(c, s.prod, s.cons) && UpToDate(s, t)
    ensures StepExact(c, s, Go(t))
  {
  }

  lemma CountersHold(c: Config, threads: nat, ls: seq<Label>)
    requires c.Ok() && c.size > 0
    ensures var s := Run(Unbounded, c, threads, ls); Counters(c, s.prod, s.cons)
  {
    ReachableInv(c, threads, ls);
  }

  lemma GoOnce(c: Config, threads: nat, ls: seq<Label>, t: nat)
    requires c.Ok() && c.size > 0 && ExactRun(c, threads, ls) && UpToDate(Run(Unbounded, c, threads, ls), t)
    ensures ExactRun(c, threads, ls + [Go(t)]) && UpToDate(Run(Unbounded, c, threads, ls + [Go(t)]), t)
    ensures Run(Unbounded, c, threads, ls + [Go(t)]) == Next(Unbounded, c, Run(Unbounded, c, threads, ls), Go(t))
  {
    CountersHold(c, threads, ls);
    UpToDateExact(c, Run(Unbounded, c, threads, ls), t);
    ExactSnoc(c, threads, ls, Go(t));
    RunSnoc(Unbounded, c, threads, ls, Go(t));
    UpToDateNext(c, Run(Unbounded, c, threads, ls), t);
  }

  /** Thread t executes k more instructions in a row. */
  lemma {:induction false} GoMore(c: Config, threads: nat, ls: seq<Label>, t: nat, k: nat) returns (longer: seq<Label>)
    requires c.Ok() && c.size > 0 && ExactRun(c, threads, ls) && UpToDate(Run(Unbounded, c, threads, ls), t)
    ensures ExactRun(c, threads, longer)
    ensures Run(Unbounded, c, threads, longer) == GoTimes(c, Run(Unbounded, c, threads, ls), t, k)
    decreases k
  {
    if k == 0 {
      longer := ls;
    } else {
      GoOnce(c, threads, ls, t);
      longer := GoMore(c, threads, ls + [Go(t)], t, k - 1);
    }
  }

  /** A whole call by thread t, back to idle, as a part of a run whose state is s. */
  lemma CallMore(c: Config, threads: nat, ls: seq<Label>, s: State, t: nat, req: Request, room: nat, words: nat)
    returns (longer: seq<Label>)
    requires c.Ok() && c.size > 0 && ExactRun(c, threads, ls) && Run(Unbounded, c, threads, ls) == s
    requires t < |s.threads| && s.threads[t].Idle? && MayBegin(c, s, req)
    requires s.Own(req.side).tail == s.Own(req.side).head
    requires room == c.Bias(req.side) + s.Opposite(req.side).tail - s.Own(req.side).head
    requires words == Granted(req.max, room, req.behavior) * c.scale
    ensures ExactRun(c, threads, longer)
    ensures Run(Unbounded, c, threads, longer) == AfterCall(c, s, t, req, room, words).WithThread(t, Idle)
  {
    var begin := ls + [Begin(t, req)];
    ExactSnoc(c, threads, ls, Begin(t, req));
    RunSnoc(Unbounded, c, threads, ls, Begin(t, req));
    var k := SoloCall(c, s, t, req, room, words);
    var returned := GoMore(c, threads, begin, t, k);
    ExactSnoc(c, threads, returned, Go(t));
    RunSnoc(Unbounded, c, threads, returned, Go(t));
    longer := returned + [Go(t)];
  }

  // ----- one thread sleeps while two others pass elements along

  /** Configurations in which several threads may work on a side at once. */
  ghost predicate Shared(c: Config, side: Side) {
    c.Ok() && c.size > 0 && !c.Single(side) && c.capacity > 0
  }

  /** A request for as much as the ring can ever hold. */
  function Full(c: Config, side: Side): (req: Request)
    requires c.scale > 0
    ensures RequestOk(c, req) || c.capacity >= TWO_32
  {
    MulNonNegative(c.scale, c.capacity);
    Request(side, c.capacity, Fixed, if side == Producer then seq(c.capacity * c.scale, i => 0) else [])
  }

  /** Thread 0 sleeps; passed elements have come and gone so far, and the ring is empty. */
  predicate Asleep(s: State, passed: nat, sleeper: Thread) {
    && |s.threads| == 3 && s.threads[0] == sleeper && s.threads[1].Idle? && s.threads[2].Idle?
    && s.prod == s.cons == HeadTail(passed, passed)
  }

  /** What a sleeper is: in a call on a side that others may use as well. */
  ghost predicate Sleeper(c: Config, sleeper: Thread) {
    !sleeper.Idle? && Shared(c, sleeper.req.side)
  }

  /** The sleeper that has loaded head 0 and not yet the opposite tail. */
  function BeforeTail(c: Config, side: Side): Thread
    requires c.scale > 0
  {
    LoadTail(Full(c, side), 0)
  }

  lemma FallAsleep(c: Config, side: Side) returns (ls: seq<Label>)
    requires Shared(c, side)
    ensures ExactRun(c, 3, ls) && Asleep(Run(Unbounded, c, 3, ls), 0, BeforeTail(c, side))
  {
    var req := Full(c, side);
    var s := Initial(c, 3);
    ls := [Begin(0, req)];
    assert ls == [] + [Begin(0, req)];
    RunSnoc(Unbounded, c, 3, [], Begin(0, req));
    assert MayBegin(c, s, req);
    assert Run(Unbounded, c, 3, ls) == s.WithThread(0, LoadHead(req));
    RunSnoc(Unbounded, c, 3, ls, Go(0));
    ExactSnoc(c, 3, [], Begin(0, req));
    ExactSnoc(c, 3, ls, Go(0));
    ls := ls + [Go(0)];
  }

  lemma OneGranted(c: Config, req: Request, room: int)
    requires c.Ok() && req.max == 1 <= room && |req.objs| == if req.side == Producer then c.scale else 0
    ensures RequestOk(c, req) && c.scale == Granted(req.max, room, req.behavior) * c.scale
  {
  }

  /** The sleeper does not keep the other threads from calling. */
  lemma OthersMayBegin(c: Config, s: State, sleeper: Thread, req: Request)
    requires Sleeper(c, sleeper) && RequestOk(c, req) && |s.threads| == 3
    requires s.threads[0] == sleeper && s.threads[1].Idle? && s.threads[2].Idle?
    ensures MayBegin(c, s, req)
  {
  }

  /** Thread 1 puts one element in. */
  lemma PutOne(c: Config, ls: seq<Label>, s: State, passed: nat, sleeper: Thread)
    returns (longer: seq<Label>, s': State)
    requires Sleeper(c, sleeper) && ExactRun(c, 3, ls) && Run(Unbounded, c, 3, ls) == s && Asleep(s, passed, sleeper)
    ensures ExactRun(c, 3, longer) && Run(Unbounded, c, 3, longer) == s'
    ensures s'.threads == s.threads && s'.cons == s.cons && s'.prod == HeadTail(passed + 1, passed + 1)
  {
    var req := Request(Producer, 1, Fixed, seq(c.scale, i => 0));
    OneGranted(c, req, c.capacity);
    OthersMayBegin(c, s, sleeper, req);
    longer := CallMore(c, 3, ls, s, 1, req, c.capacity, c.scale);
    s' := AfterCall(c, s, 1, req, c.capacity, c.scale).WithThread(1, Idle);
    assert s'.threads == s.threads;
  }

  /** Thread 2 takes it out. */
  lemma TakeOne(c: Config, ls: seq<Label>, s: State, passed: nat, sleeper: Thread) returns (longer: seq<Label>)
    requires Sleeper(c, sleeper) && ExactRun(c, 3, ls) && Run(Unbounded, c, 3, ls) == s && |s.threads| == 3
    requires s.threads[0] == sleeper && s.threads[1].Idle? && s.threads[2].Idle?
    requires s.cons == HeadTail(passed, passed) && s.prod == HeadTail(passed + 1, passed + 1)
    ensures ExactRun(c, 3, longer) && Asleep(Run(Unbounded, c, 3, longer), passed + 1, sleeper)
  {
    var req := Request(Consumer, 1, Fixed, []);
    var s' := AfterCall(c, s, 2, req, 1, c.scale).WithThread(2, Idle);
    assert s'.threads == s.threads && s'.prod == s.prod && s'.cons == HeadTail(passed + 1, passed + 1);
    OneGranted(c, req, 1);
    OthersMayBegin(c, s, sleeper, req);
    longer := CallMore(c, 3, ls, s, 2, req, 1, c.scale);
  }

  /** Any number of elements can pass by a sleeping thread, and up to its next instruction no word goes wrong. */
  lemma {:induction false} SleepOn(c: Config, start: seq<Label>, passed: nat, sleeper: Thread)
    returns (ls: seq<Label>)
    requires Sleeper(c, sleeper) && ExactRun(c, 3, start) && Asleep(Run(Unbounded, c, 3, start), 0, sleeper)
    ensures ExactRun(c, 3, ls) && Asleep(Run(Unbounded, c, 3, ls), passed, sleeper)
    decreases passed
  {
    if passed == 0 {
      ls := start;
    } else {
      var before := SleepOn(c, start, passed - 1, sleeper);
      var s := Run(Unbounded, c, 3, before);
      var put, s' := PutOne(c, before, s, passed - 1, sleeper);
      ls := TakeOne(c, put, s', passed - 1, sleeper);
    }
  }

  // ----- how large the room gets

  /** The word that the true room of the sleeper leaves in a 32-bit counter. */
  function RoomWord(c: Config, side: Side, passed: nat): (r: nat)
    ensures r == c.Bias(side) + passed <==> passed < TWO_32 - c.Bias(side)
  {
    Word32(c.Bias(side) + passed)
  }

  /** What the sleeper computes when it wakes up and loads the opposite tail. */
  lemma WakeUp(c: Config, s: State, side: Side, passed: nat)
    requires Shared(c, side) && |s.slots| == c.Lap() && Asleep(s, passed, BeforeTail(c, side))
    ensures Next(Unbounded, c, s, Go(0)).threads[0] == Test(Full(c, side), 0, c.Bias(side) + passed)
    ensures Next(Bits32, c, Low(s), Go(0)).threads[0] == Test(Full(c, side), 0, RoomWord(c, side, passed))
    ensures StepExact(c, s, Go(0)) <==> c.Bias(side) + passed < TWO_32
  {
    assert Low(s).threads[0] == BeforeTail(c, side);
    LowOwn(s, side.Other(), s.Opposite(side));
    PassedWord(c.Bias(side), passed);
  }

  lemma PassedWord(bias: nat, passed: nat)
    ensures Word32(bias + Word32(passed)) == Word32(bias + passed)
  {
    WordSum(passed, bias);
  }

  /**
   The room of a side that several threads use: for every number of elements there is a run, right in every word up
   to the load of the opposite tail, in which the 32-bit machine computes that number plus the capacity (a producer)
   or that number (a consumer), reduced to a word.
   */
  lemma RoomReached(c: Config, side: Side, passed: nat) returns (ls: seq<Label>)
    requires Shared(c, side)
    ensures Run(Bits32, c, 3, ls).threads[0] == Test(Full(c, side), 0, RoomWord(c, side, passed))
    ensures Run(Unbounded, c, 3, ls).threads[0] == Test(Full(c, side), 0, c.Bias(side) + passed)
    ensures ExactRun(c, 3, ls) <==> c.Bias(side) + passed < TWO_32
  {
    var start := FallAsleep(c, side);
    var asleep := SleepOn(c, start, passed, BeforeTail(c, side));
    WakeUp(c, Run(Unbounded, c, 3, asleep), side, passed);
    ExactAgrees(c, 3, asleep, |asleep|);
    assert asleep[..|asleep|] == asleep;
    RunSnoc(Unbounded, c, 3, asleep, Go(0));
    RunSnoc(Bits32, c, 3, asleep, Go(0));
    ls := asleep + [Go(0)];
    if c.Bias(side) + passed < TWO_32 {
      ExactSnoc(c, 3, asleep, Go(0));
    } else {
      assert ls[..|asleep|] == asleep && !StepExact(c, Run(Unbounded, c, 3, ls[..|asleep|]), ls[|asleep|]);
    }
  }

  /** A producer's free_entries can be the capacity plus any number that still fits in a word with it. */
  lemma RoomExceedsCapacity(c: Config, passed: nat) returns (ls: seq<Label>)
    requires Shared(c, Producer)
    ensures Run(Bits32, c, 3, ls).threads[0] == Test(Full(c, Producer), 0, RoomWord(c, Producer, passed))
    ensures RoomWord(c, Producer, passed) == c.capacity + passed <==> passed < TWO_32 - c.capacity
    ensures ExactRun(c, 3, ls) <==> passed < TWO_32 - c.capacity
  {
    ls := RoomReached(c, Producer, passed);
  }

  /** The smallest case: a ring of two slots and capacity 1, in which one element passing by makes the room 2. */
  lemma RoomExceedsCapacityExample() returns (ls: seq<Label>)
    ensures var c := Config(2, 1, 1, false, false);
      && c.Ok() && Run(Bits32, c, 3, ls).threads[0].Test? && Run(Bits32, c, 3, ls).threads[0].room == 2
  {
    assert 2 == Pow2(1);
    ls := RoomExceedsCapacity(Config(2, 1, 1, false, false), 1);
  }

  // ----- what decides whether the room is bounded

  predicate TestsWith(a: Arith, c: Config, threads: nat, ls: seq<Label>, t: nat, side: Side, room: int)
    requires c.size > 0 && c.Lap() > 0
  {
    && t < threads && Run(a, c, threads, ls).threads[t].Test?
    && Run(a, c, threads, ls).threads[t].req.side == side && Run(a, c, threads, ls).threads[t].room == room
  }

  /** No call on the side ever tests a room above the bound, on any run on which the words stay right. */
  ghost predicate RoomAtMost(a: Arith, c: Config, side: Side, bound: int)
    requires c.size > 0 && c.Lap() > 0
  {
    forall threads, ls, t, room ::
      TestsWith(a, c, threads, ls, t, side, room) && (a.Bits32? ==> ExactRun(c, threads, ls)) ==>
      room <= bound
  }

  /** With nobody else on the side the loaded head is the current one, and the room is at most the capacity. */
  lemma RoomWhenSingle(c: Config, threads: nat, ls: seq<Label>, t: nat, side: Side, room: int)
    requires c.Ok() && c.size > 0 && c.Single(side) && TestsWith(Unbounded, c, threads, ls, t, side, room)
    ensures room <= c.capacity
  {
    assert ls[..|ls|] == ls;
    var i := RoomWithinCapacity(c, threads, ls, |ls|, t);
    var g := StateInv(c, threads, ls, i);
    assert ThreadOk(c, g.s.prod, g.s.cons, g.s.slots, g.enqueued, g.s.threads[t]);
  }

  /** In a ring of capacity 0 no head ever moves. */
  lemma HeadsStay(c: Config, threads: nat, ls: seq<Label>, i: nat, side: Side)
    requires c.Ok() && c.size > 0 && c.capacity == 0 && i <= |ls|
    ensures StateAt(c, threads, ls, i).Own(side).head == 0
  {
    assert ls[..0] == [];
    if StateAt(c, threads, ls, i).Own(side).head != 0 {
      var m := HeadMoved(c, threads, ls, 0, i, side);
      CommitHasRoom(c, threads, ls, m, ls[m].t);
      CountersAt(c, threads, ls, m);
    }
  }

  lemma CountersAt(c: Config, threads: nat, ls: seq<Label>, i: nat)
    requires c.Ok() && c.size > 0 && i <= |ls|
    ensures var s := StateAt(c, threads, ls, i); Counters(c, s.prod, s.cons)
    ensures forall side: Side :: Available(c, StateAt(c, threads, ls, i), side) <= c.capacity
  {
    ReachableInv(c, threads, ls[..i]);
  }

  lemma RoomWhenEmpty(c: Config, threads: nat, ls: seq<Label>, t: nat, side: Side, room: int)
    requires c.Ok() && c.size > 0 && c.capacity == 0 && TestsWith(Unbounded, c, threads, ls, t, side, room)
    ensures room <= c.capacity
  {
    assert ls[..|ls|] == ls;
    var i := RoomWithinCapacity(c, threads, ls, |ls|, t);
    HeadsStay(c, threads, ls, i, side);
    var g := StateInv(c, threads, ls, i);
    assert ThreadOk(c, g.s.prod, g.s.cons, g.s.slots, g.enqueued, g.s.threads[t]);
  }

  /** On a run whose words are right the 32-bit machine tests the same rooms. */
  lemma SameTests(c: Config, threads: nat, ls: seq<Label>, t: nat, side: Side, room: int)
    requires c.Ok() && c.size > 0 && ExactRun(c, threads, ls) && TestsWith(Bits32, c, threads, ls, t, side, room)
    ensures TestsWith(Unbounded, c, threads, ls, t, side, room)
  {
    ExactAgrees(c, threads, ls, |ls|);
    assert ls[..|ls|] == ls;
  }

  lemma RoomBounded(c: Config, side: Side, bound: nat)
    requires c.Ok() && c.size > 0 && c.capacity <= bound && (c.Single(side) || c.capacity == 0)
    ensures RoomAtMost(Bits32, c, side, bound) && RoomAtMost(Unbounded, c, side, bound)
  {
    forall threads, ls, t, room | TestsWith(Unbounded, c, threads, ls, t, side, room) ensures room <= bound {
      if c.Single(side) {
        RoomWhenSingle(c, threads, ls, t, side, room);
      } else {
        RoomWhenEmpty(c, threads, ls, t, side, room);
      }
    }
    forall threads, ls, t, room | TestsWith(Bits32, c, threads, ls, t, side, room) && ExactRun(c, threads, ls)
      ensures room <= bound
    {
      SameTests(c, threads, ls, t, side, room);
    }
  }

  lemma RoomUnbounded(c: Config, side: Side, bound: nat)
    requires Shared(c, side) && c.capacity <= bound < TWO_32 - 1
    ensures !RoomAtMost(Bits32, c, side, bound) && !RoomAtMost(Unbounded, c, side, bound)
  {
    var ls := RoomReached(c, side, bound + 1 - c.Bias(side));
    assert TestsWith(Bits32, c, 3, ls, 0, side, bound + 1) && TestsWith(Unbounded, c, 3, ls, 0, side, bound + 1);
  }

  /**
   The comments that bound free_entries by the capacity and entries by the size hold exactly for a side created for
   a single thread (or a ring of capacity 0); for a shared side no bound below 2^32 - 1 holds, on the code's words
   as little as on unbounded counters.
   */
  lemma RoomBoundedIff(c: Config, side: Side, bound: nat)
    requires c.Ok() && c.size > 0 && c.capacity <= bound < TWO_32 - 1
    ensures RoomAtMost(Bits32, c, side, bound) <==> c.Single(side) || c.capacity == 0
    ensures RoomAtMost(Unbounded, c, side, bound) <==> c.Single(side) || c.capacity == 0
  {
    if c.Single(side) || c.capacity == 0 {
      RoomBounded(c, side, bound);
    } else {
      RoomUnbounded(c, side, bound);
    }
  }

  // ----- wrong refusals

  /**
   Whenever between 2^32 - capacity and 2^32 elements have passed by, and the ring is empty, the 32-bit machine
   refuses the sleeping producer although all its elements would fit; the unbounded machine goes on to its commit.
   Up to that point no word was wrong.
   */
  lemma WrongRefusal(c: Config, passed: nat) returns (ls: seq<Label>)
    requires Shared(c, Producer) && TWO_32 - c.capacity <= passed < TWO_32
    ensures RunsAgree(c, 3, ls)
    ensures Asleep(Run(Unbounded, c, 3, ls), passed, BeforeTail(c, Producer))
    ensures var th := Run(Unbounded, c, 3, ls + [Go(0)] + [Go(0)]).threads[0]; th.Commit? && th.n == c.capacity
    ensures var th := Run(Bits32, c, 3, ls + [Go(0)] + [Go(0)]).threads[0]; th.Done? && th.n == 0
  {
    var start := FallAsleep(c, Producer);
    ls := SleepOn(c, start, passed, BeforeTail(c, Producer));
    RunRefines(c, 3, ls);
    assert ls[..|ls|] == ls;
    TwoMore(Unbounded, c, 3, ls, Go(0), Go(0));
    TwoMore(Bits32, c, 3, ls, Go(0), Go(0));
    WokenProducer(c, Run(Unbounded, c, 3, ls), passed);
  }

  lemma TwoMore(a: Arith, c: Config, threads: nat, ls: seq<Label>, k: Label, l: Label)
    requires c.size > 0 && c.Lap() > 0
    ensures Run(a, c, threads, ls + [k] + [l]) == Next(a, c, Next(a, c, Run(a, c, threads, ls), k), l)
  {
    RunSnoc(a, c, threads, ls, k);
    RunSnoc(a, c, threads, ls + [k], l);
  }

  /** The two instructions of the sleeper after it wakes up, in both arithmetics. */
  lemma WokenProducer(c: Config, s: State, passed: nat)
    requires Shared(c, Producer) && |s.slots| == c.Lap() && Asleep(s, passed, BeforeTail(c, Producer))
    requires TWO_32 - c.capacity <= passed < TWO_32
    ensures var th := Next(Unbounded, c, Next(Unbounded, c, s, Go(0)), Go(0)).threads[0];
      th.Commit? && th.n == c.capacity
    ensures var th := Next(Bits32, c, Next(Bits32, c, Low(s), Go(0)), Go(0)).threads[0]; th.Done? && th.n == 0
  {
    WakeUp(c, s, Producer, passed);
    WrappedRoom(c.capacity, passed);
    TestedNext(Unbounded, c, Next(Unbounded, c, s, Go(0)), c.capacity + passed);
    TestedNext(Bits32, c, Next(Bits32, c, Low(s), Go(0)), c.capacity + passed - TWO_32);
  }

  lemma WrappedRoom(capacity: nat, passed: nat)
    requires capacity < TWO_32 && TWO_32 - capacity <= passed < TWO_32
    ensures Word32(capacity + passed) == capacity + passed - TWO_32
  {
  }

  lemma TestedNext(a: Arith, c: Config, s: State, room: nat)
    requires c.size > 0 && c.scale > 0 && |s.slots| == c.Lap() > 0 && |s.threads| > 0 && c.capacity > 0
    requires s.threads[0] == Test(Full(c, Producer), 0, room)
    ensures var th := Next(a, c, s, Go(0)).threads[0];
      if c.capacity <= room then th == Commit(Full(c, Producer), 0, room, c.capacity)
      else th == Done(Full(c, Producer), 0, room, 0, [])
  {
  }
}
