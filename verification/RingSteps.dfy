/** Every step of the ring protocol keeps the invariant, so every reachable state satisfies it. */
module RingSteps {
  import opened QueueSpec
  import opened RingCopy
  import opened RingProtocol
  import opened RingInvariant

  // ----- steps that only change one thread's local state

  /** A thread may change its local state if it holds the same reservation, or none, as before. */
  lemma ReplaceThread(c: Config, g: Logged, t: nat, th: Thread)
    requires Inv(c, g) && t < |g.s.threads| && SameHold(g.s.threads[t], th)
    requires ThreadOk(c, g.s.prod, g.s.cons, g.s.slots, g.enqueued, th)
    requires AllAlone(c, g.s.threads[t := th])
    ensures Inv(c, g.(s := g.s.WithThread(t, th)))
  {
    SameHoldQueues(g, t, th);
  }

  lemma SameHoldQueues(g: Logged, t: nat, th: Thread)
    requires QueuesOk(g) && t < |g.s.threads| && SameHold(g.s.threads[t], th)
    ensures QueuesOk(g.(s := g.s.WithThread(t, th)))
  {
    var g' := g.(s := g.s.WithThread(t, th));
    forall side: Side ensures Tiles(g'.s.threads, g'.s.Own(side), side, g'.Queue(side)) {
      SameHoldTiles(g.s.threads, g.s.Own(side), side, g.Queue(side), t, th);
    }
  }

  predicate SameHold(was: Thread, now: Thread) {
    && (was.InFlight() <==> now.InFlight())
    && (now.InFlight() ==> now.req == was.req && now.lo == was.lo && now.n == was.n)
  }

  lemma SameHoldTiles(threads: seq<Thread>, ht: HeadTail, side: Side, q: seq<nat>, t: nat, th: Thread)
    requires Tiles(threads, ht, side, q) && t < |threads| && SameHold(threads[t], th)
    ensures Tiles(threads[t := th], ht, side, q)
  {
    TilesFrame(threads, threads[t := th], ht, side, q);
  }

  lemma AloneReplace(c: Config, threads: seq<Thread>, t: nat, th: Thread)
    requires t < |threads| && (th.Idle? || threads[t].On(th.req.side))
    requires AllAlone(c, threads)
    ensures AllAlone(c, threads[t := th])
  {
    var threads' := threads[t := th];
    forall side: Side ensures Alone(c, threads', side) {
      assert Alone(c, threads, side);
      assert forall u :: 0 <= u < |threads| && threads'[u].On(side) ==> threads[u].On(side);
    }
  }

  // ----- what the next local state of a thread is, and that it is in order

  /** The thread's next local state on steps that touch nothing shared. */
  function LocalNext(c: Config, s: State, th: Thread): Thread {
    match th
    case LoadHead(req) => LoadTail(req, s.Own(req.side).head)
    case LoadTail(req, lo) => Test(req, lo, c.Bias(req.side) + s.Opposite(req.side).tail - lo)
    case Test(req, lo, room) => AfterTest(req, lo, room)
    case Commit(req, _, _, _) => LoadHead(req)
    case Copy(req, lo, room, n, moved) =>
      if c.Single(req.side) then Publish(req, lo, room, n, moved) else Wait(req, lo, room, n, moved)
    case Wait(req, lo, room, n, moved) => Publish(req, lo, room, n, moved)
    case Done(_, _, _, _, _) => Idle
    case _ => th
  }

  /**
   Steps that change the local state only: loads, the test, a failed compare-and-set, the end of a copy, the
   return.
   */
  predicate LocalStep(c: Config, s: State, th: Thread) {
    match th
    case Commit(req, lo, _, _) => !c.Single(req.side) && s.Own(req.side).head != lo
    case Copy(_, _, _, n, moved) => |moved| >= n * c.scale
    case Wait(req, lo, _, _, _) => s.Own(req.side).tail == lo
    case Idle => false
    case Publish(_, _, _, _, _) => false
    case _ => true
  }

  lemma LocalStepIs(c: Config, g: Logged, t: nat)
    requires c.size > 0 && |g.s.slots| == c.Lap() > 0
    requires t < |g.s.threads| && LocalStep(c, g.s, g.s.threads[t])
    ensures NextLogged(c, g, Go(t)) == g.(s := g.s.WithThread(t, LocalNext(c, g.s, g.s.threads[t])))
  {
  }

  lemma BeforeReservationOk(c: Config, s: State, log: seq<Word>, th: Thread)
    requires |s.slots| == c.Lap() > 0 && LocalStep(c, s, th) && !th.InFlight()
    requires Counters(c, s.prod, s.cons) && ThreadOk(c, s.prod, s.cons, s.slots, log, th)
    ensures ThreadOk(c, s.prod, s.cons, s.slots, log, LocalNext(c, s, th))
  {
    var th' := LocalNext(c, s, th);
    if th'.Loaded() {
      assert LoadedOk(c, s.Own(th.req.side).head, Limit(c, s.prod, s.cons, th.req.side), th');
    }
  }

  lemma AfterReservationOk(c: Config, s: State, log: seq<Word>, th: Thread)
    requires |s.slots| == c.Lap() > 0 && LocalStep(c, s, th) && th.InFlight()
    requires ThreadOk(c, s.prod, s.cons, s.slots, log, th)
    requires c.Single(th.req.side) ==> th.lo == s.Own(th.req.side).tail
    ensures ThreadOk(c, s.prod, s.cons, s.slots, log, LocalNext(c, s, th))
  {
    assert FlightOk(c, s.Own(th.req.side).tail, s.slots, log, LocalNext(c, s, th));
  }

  lemma LocalNextOk(c: Config, s: State, log: seq<Word>, q: seq<nat>, t: nat)
    requires |s.slots| == c.Lap() > 0 && t < |s.threads| && LocalStep(c, s, s.threads[t])
    requires Counters(c, s.prod, s.cons)
    requires ThreadOk(c, s.prod, s.cons, s.slots, log, s.threads[t])
    requires Tiles(s.threads, s.Own(s.threads[t].req.side), s.threads[t].req.side, q)
    requires Alone(c, s.threads, s.threads[t].req.side)
    ensures ThreadOk(c, s.prod, s.cons, s.slots, log, LocalNext(c, s, s.threads[t]))
  {
    var th := s.threads[t];
    if th.InFlight() {
      if c.Single(th.req.side) {
        AloneAtTail(c, s.threads, s.Own(th.req.side), th.req.side, q, t);
      }
      AfterReservationOk(c, s, log, th);
    } else {
      BeforeReservationOk(c, s, log, th);
    }
  }

  lemma LocalKeeps(c: Config, g: Logged, t: nat)
    requires Inv(c, g) && t < |g.s.threads| && LocalStep(c, g.s, g.s.threads[t])
    ensures Inv(c, NextLogged(c, g, Go(t)))
  {
    LocalStepIs(c, g, t);
    LocalNextFits(c, g, t);
    AloneReplace(c, g.s.threads, t, LocalNext(c, g.s, g.s.threads[t]));
    ReplaceThread(c, g, t, LocalNext(c, g.s, g.s.threads[t]));
  }

  lemma LocalNextFits(c: Config, g: Logged, t: nat)
    requires |g.s.slots| == c.Lap() > 0 && Counters(c, g.s.prod, g.s.cons) && QueuesOk(g) && AllAlone(c, g.s.threads)
    requires ThreadsOk(c, g.s.prod, g.s.cons, g.s.slots, g.enqueued, g.s.threads)
    requires t < |g.s.threads| && LocalStep(c, g.s, g.s.threads[t])
    ensures ThreadOk(c, g.s.prod, g.s.cons, g.s.slots, g.enqueued, LocalNext(c, g.s, g.s.threads[t]))
    ensures SameHold(g.s.threads[t], LocalNext(c, g.s, g.s.threads[t]))
  {
    var side := g.s.threads[t].req.side;
    assert Tiles(g.s.threads, g.s.Own(side), side, g.Queue(side));
    LocalNextOk(c, g.s, g.enqueued, g.Queue(side), t);
    LocalNextHolds(c, g.s, g.s.threads[t]);
  }

  lemma LocalNextHolds(c: Config, s: State, th: Thread)
    requires LocalStep(c, s, th)
    ensures SameHold(th, LocalNext(c, s, th))
  {
  }

  lemma BeginKeeps(c: Config, g: Logged, t: nat, req: Request)
    requires Inv(c, g) && t < |g.s.threads| && g.s.threads[t].Idle? && MayBegin(c, g.s, req)
    ensures Inv(c, NextLogged(c, g, Begin(t, req)))
  {
    var threads' := g.s.threads[t := LoadHead(req)];
    forall side: Side ensures Alone(c, threads', side) {
      assert Alone(c, g.s.threads, side);
      assert forall u :: 0 <= u < |threads'| && u != t && threads'[u].On(side) ==> g.s.threads[u].On(side);
    }
    ReplaceThread(c, g, t, LoadHead(req));
  }

  // ----- what other threads know survives

  lemma SegmentFrame(log: seq<Word>, log': seq<Word>, from: int, words: seq<Word>)
    requires Segment(log, from, words) && log <= log'
    ensures Segment(log', from, words)
  {
    assert log'[from..from + |words|] == log[from..from + |words|];
  }

  lemma FlightFrame(c: Config, tail: int, slots: seq<Word>, log: seq<Word>,
                    tail': int, slots': seq<Word>, log': seq<Word>, th: Thread)
    requires |slots| == |slots'| == c.Lap() > 0 && th.InFlight() && FlightOk(c, tail, slots, log, th)
    requires th.Publish? ==> tail' == tail
    requires log <= log'
    requires th.req.side == Producer ==> SlotsHold(c, slots', log', At(c, th.lo), At(c, th.lo) + |th.moved|)
    ensures FlightOk(c, tail', slots', log', th)
  {
    SegmentFrame(log, log', At(c, th.lo), th.moved);
    if th.req.side == Producer {
      SegmentFrame(log, log', At(c, th.lo), Supplied(c, th));
    }
  }

  /** Heads of multi-threaded sides, limits and the log may grow, and a producer's copied slots must stand. */
  lemma ThreadFrame(c: Config, prod: HeadTail, cons: HeadTail, slots: seq<Word>, log: seq<Word>,
                    prod': HeadTail, cons': HeadTail, slots': seq<Word>, log': seq<Word>, th: Thread)
    requires |slots| == |slots'| == c.Lap() > 0 && ThreadOk(c, prod, cons, slots, log, th)
    requires th.Loaded() ==> Pick(prod, cons, th.req.side).head <= Pick(prod', cons', th.req.side).head
    requires th.Loaded() && c.Single(th.req.side) ==>
               Pick(prod, cons, th.req.side).head == Pick(prod', cons', th.req.side).head
    requires th.Loaded() ==> Limit(c, prod, cons, th.req.side) <= Limit(c, prod', cons', th.req.side)
    requires th.Publish? ==> Pick(prod, cons, th.req.side).tail == Pick(prod', cons', th.req.side).tail
    requires log <= log'
    requires th.InFlight() && th.req.side == Producer ==>
               SlotsHold(c, slots', log', At(c, th.lo), At(c, th.lo) + |th.moved|)
    ensures ThreadOk(c, prod', cons', slots', log', th)
  {
    if th.Done? && th.n > 0 {
      SegmentFrame(log, log', At(c, th.lo), th.moved);
    }
    if th.InFlight() {
      FlightFrame(c, Pick(prod, cons, th.req.side).tail, slots, log,
                  Pick(prod', cons', th.req.side).tail, slots', log', th);
    }
  }

  /** A longer log says the same about positions the shorter one covers. */
  lemma SlotsHoldFrame(c: Config, slots: seq<Word>, log: seq<Word>, log': seq<Word>, from: int, to: int)
    requires |slots| == c.Lap() > 0 && SlotsHold(c, slots, log, from, to)
    requires log <= log' && to <= |log|
    ensures SlotsHold(c, slots, log', from, to)
  {
  }

  // ----- reservation

  /** The new reservation starts where the last one ended. */
  lemma TilesReserve(threads: seq<Thread>, ht: HeadTail, side: Side, q: seq<nat>, t: nat, th: Thread)
    requires Tiles(threads, ht, side, q) && t < |threads| && !threads[t].InFlight()
    requires th.Holds(side) && th.lo == ht.head && th.n > 0 && ht.tail <= ht.head
    ensures Tiles(threads[t := th], HeadTail(th.lo + th.n, ht.tail), side, q + [t])
  {
    var threads' := threads[t := th];
    HoldersAppend(threads, side, q, t, th);
    forall i | 0 <= i < |q| ensures threads'[q[i]] == threads[q[i]] {
      assert threads[q[i]].Holds(side);
    }
    InOrderAppend(threads, threads', ht, q, t);
  }

  lemma HoldersAppend(threads: seq<Thread>, side: Side, q: seq<nat>, t: nat, th: Thread)
    requires Holders(threads, side, q) && t < |threads| && !threads[t].InFlight() && th.Holds(side)
    ensures Holders(threads[t := th], side, q + [t])
  {
    var threads', q' := threads[t := th], q + [t];
    forall u | 0 <= u < |threads'| && threads'[u].Holds(side) ensures u in q' {
      if u == t {
        assert q'[|q|] == t;
      } else {
        assert u in q;
      }
    }
  }

  lemma InOrderAppend(threads: seq<Thread>, threads': seq<Thread>, ht: HeadTail, q: seq<nat>, t: nat)
    requires |threads'| == |threads| && t < |threads| && Flying(threads, q)
    requires forall i :: 0 <= i < |q| ==> threads'[q[i]] == threads[q[i]]
    requires InOrder(threads, ht, q)
    requires threads'[t].InFlight() && Lo(threads', t) == ht.head < Hi(threads', t) && ht.tail <= ht.head
    ensures Flying(threads', q + [t])
    ensures InOrder(threads', HeadTail(Hi(threads', t), ht.tail), q + [t])
  {
    var q', ht' := q + [t], HeadTail(Hi(threads', t), ht.tail);
    assert q'[|q|] == t;
    assert Flying(threads', q');
    forall i | 0 <= i < |q|
      ensures q'[i] == q[i] && Lo(threads', q'[i]) == Lo(threads, q[i]) && Hi(threads', q'[i]) == Hi(threads, q[i])
    {
    }
    assert Within(threads', ht', q');
    assert Apart(threads', q');
    LinkedAppend(threads, threads', ht, q, t);
  }

  lemma LinkedAppend(threads: seq<Thread>, threads': seq<Thread>, ht: HeadTail, q: seq<nat>, t: nat)
    requires |threads'| == |threads| && t < |threads| && Flying(threads, q) && Flying(threads', q + [t])
    requires forall i :: 0 <= i < |q| ==> threads'[q[i]] == threads[q[i]]
    requires Linked(threads, ht, q) && threads'[t].InFlight() && Lo(threads', t) == ht.head
    ensures Linked(threads', HeadTail(Hi(threads', t), ht.tail), q + [t])
  {
    var q' := q + [t];
    forall i | 0 <= i < |q'| - 1 ensures Hi(threads', q'[i]) == Lo(threads', q'[i + 1]) {
      assert Hi(threads', q'[i]) == Hi(threads, q[i]);
    }
  }

  /** A change of hands on one side leaves the other side's tiling alone. */
  lemma OtherSideTiles(threads: seq<Thread>, ht: HeadTail, side: Side, q: seq<nat>, t: nat, th: Thread)
    requires Tiles(threads, ht, side, q) && t < |threads| && !threads[t].Holds(side) && !th.Holds(side)
    ensures Tiles(threads[t := th], ht, side, q)
  {
    TilesFrame(threads, threads[t := th], ht, side, q);
  }

  /** A commit that succeeds, as a value. */
  function Committed(c: Config, g: Logged, t: nat): Logged
    requires t < |g.s.threads| && g.s.threads[t].Commit?
  {
    var Commit(req, lo, room, n) := g.s.threads[t];
    var own := g.s.Own(req.side);
    var log := if req.side == Producer then g.enqueued + ObjWords(req, At(c, n)) else g.enqueued;
    g.WithQueue(req.side, g.Queue(req.side) + [t])
     .(s := g.s.WithOwn(req.side, own.(head := lo + n)).WithThread(t, Copy(req, lo, room, n, [])),
       enqueued := log)
  }

  predicate CommitSucceeds(c: Config, s: State, t: nat)
    requires t < |s.threads|
  {
    var th := s.threads[t];
    th.Commit? && (c.Single(th.req.side) || s.Own(th.req.side).head == th.lo)
  }

  lemma CommittedIs(c: Config, g: Logged, t: nat)
    requires c.size > 0 && |g.s.slots| == c.Lap() > 0
    requires t < |g.s.threads| && CommitSucceeds(c, g.s, t)
    ensures NextLogged(c, g, Go(t)) == Committed(c, g, t)
  {
  }

  lemma CommittedParts(c: Config, g: Logged, t: nat)
    requires t < |g.s.threads| && g.s.threads[t].Commit?
    ensures var Commit(req, lo, room, n), g' := g.s.threads[t], Committed(c, g, t);
      && g'.s.threads == g.s.threads[t := Copy(req, lo, room, n, [])]
      && g'.s.Own(req.side) == HeadTail(lo + n, g.s.Own(req.side).tail)
      && g'.s.Opposite(req.side) == g.s.Opposite(req.side)
      && g'.Queue(req.side) == g.Queue(req.side) + [t]
      && g'.Queue(req.side.Other()) == g.Queue(req.side.Other())
  {
  }

  lemma CommittedQueues(c: Config, g: Logged, t: nat)
    requires QueuesOk(g) && t < |g.s.threads| && CommitSucceeds(c, g.s, t)
    requires g.s.threads[t].lo == g.s.Own(g.s.threads[t].req.side).head && g.s.threads[t].n > 0
    requires g.s.Own(g.s.threads[t].req.side).tail <= g.s.Own(g.s.threads[t].req.side).head
    ensures QueuesOk(Committed(c, g, t))
  {
    var Commit(req, lo, room, n) := g.s.threads[t];
    var th := Copy(req, lo, room, n, []);
    CommittedParts(c, g, t);
    TilesReserve(g.s.threads, g.s.Own(req.side), req.side, g.Queue(req.side), t, th);
    OtherSideTiles(g.s.threads, g.s.Opposite(req.side), req.side.Other(), g.Queue(req.side.Other()), t, th);
    BothSides(Committed(c, g, t), req.side);
  }

  lemma BothSides(g: Logged, side: Side)
    requires Tiles(g.s.threads, g.s.Own(side), side, g.Queue(side))
    requires Tiles(g.s.threads, g.s.Opposite(side), side.Other(), g.Queue(side.Other()))
    ensures QueuesOk(g)
  {
    forall any: Side ensures Tiles(g.s.threads, g.s.Own(any), any, g.Queue(any)) {
      assert any == side || any == side.Other();
    }
  }

  lemma SegmentAppended(log: seq<Word>, words: seq<Word>)
    ensures Segment(log + words, |log|, words)
  {
    assert (log + words)[|log|..|log| + |words|] == words;
  }

  /** The thread that reserved: its words were just logged at its position. */
  lemma ReservedFlight(c: Config, tail: int, slots: seq<Word>, log: seq<Word>, prodHead: int, th: Thread)
    requires |slots| == c.Lap() > 0 && c.scale > 0 && th.Copy? && th.moved == []
    requires 0 <= th.lo && 0 < th.n && 0 <= th.room && th.n == Granted(th.req.max, th.room, th.req.behavior)
    requires |log| == At(c, prodHead) && th.lo <= prodHead && (th.req.side == Producer ==> th.lo == prodHead)
    ensures FlightOk(c, tail, slots, if th.req.side == Producer then log + Supplied(c, th) else log, th)
  {
    AtOrder(c, 0, th.lo);
    AtOrder(c, th.lo, prodHead);
    AtOrder(c, 0, th.n);
    SegmentAppended(log, Supplied(c, th));
  }

  /** What a successful commit does to what the threads know, on values. */
  lemma CommittedThreads(c: Config, s: State, s': State, log: seq<Word>, log': seq<Word>, t: nat)
    requires |s.slots| == c.Lap() > 0 && t < |s.threads| == |s'.threads| && CommitSucceeds(c, s, t)
    requires ThreadsOk(c, s.prod, s.cons, s.slots, log, s.threads) && Alone(c, s.threads, s.threads[t].req.side)
    requires var Commit(req, lo, room, n) := s.threads[t];
             && s' == s.WithOwn(req.side, s.Own(req.side).(head := lo + n)).WithThread(t, Copy(req, lo, room, n, []))
             && lo == s.Own(req.side).head && n > 0
    requires log <= log'
    requires ThreadOk(c, s'.prod, s'.cons, s'.slots, log', s'.threads[t])
    ensures ThreadsOk(c, s'.prod, s'.cons, s'.slots, log', s'.threads)
  {
    forall u | 0 <= u < |s'.threads| ensures ThreadOk(c, s'.prod, s'.cons, s'.slots, log', s'.threads[u]) {
      if u != t {
        var th := s.threads[u];
        assert ThreadOk(c, s.prod, s.cons, s.slots, log, th);
        if th.InFlight() && th.req.side == Producer {
          FlightInLog(c, s, log, th);
          SlotsHoldFrame(c, s.slots, log, log', At(c, th.lo), At(c, th.lo) + |th.moved|);
        }
        ThreadFrame(c, s.prod, s.cons, s.slots, log, s'.prod, s'.cons, s'.slots, log', th);
      }
    }
  }

  /** The words a thread has moved lie inside the log. */
  lemma FlightInLog(c: Config, s: State, log: seq<Word>, th: Thread)
    requires |s.slots| == c.Lap() > 0 && ThreadOk(c, s.prod, s.cons, s.slots, log, th) && th.InFlight()
    ensures At(c, th.lo) + |th.moved| <= |log|
  {
  }

  lemma CommitKeeps(c: Config, g: Logged, t: nat)
    requires Inv(c, g) && t < |g.s.threads| && CommitSucceeds(c, g.s, t)
    ensures Inv(c, NextLogged(c, g, Go(t)))
  {
    var g' := Committed(c, g, t);
    var th, th' := g.s.threads[t], g'.s.threads[t];
    CommittedIs(c, g, t);
    CommitterKnows(c, g, t);
    CommittedQueues(c, g, t);
    AloneReplace(c, g.s.threads, t, th');
    ReservedFlight(c, g.s.Own(th.req.side).tail, g.s.slots, g.enqueued, g.s.prod.head, th');
    CommittedThreads(c, g.s, g'.s, g.enqueued, g'.enqueued, t);
    CommittedLogs(c, g, t);
  }

  lemma CommitterKnows(c: Config, g: Logged, t: nat)
    requires Inv(c, g) && t < |g.s.threads| && CommitSucceeds(c, g.s, t)
    ensures var th := g.s.threads[t];
      && RequestOk(c, th.req) && 0 <= th.room
      && th.lo == g.s.Own(th.req.side).head && 0 < th.n == Granted(th.req.max, th.room, th.req.behavior)
      && th.lo + th.n <= Limit(c, g.s.prod, g.s.cons, th.req.side)
  {
    assert ThreadOk(c, g.s.prod, g.s.cons, g.s.slots, g.enqueued, g.s.threads[t]);
  }

  lemma CommittedLogs(c: Config, g: Logged, t: nat)
    requires Inv(c, g) && t < |g.s.threads| && CommitSucceeds(c, g.s, t)
    requires g.s.threads[t].lo == g.s.Own(g.s.threads[t].req.side).head && g.s.threads[t].n > 0
    ensures var g' := Committed(c, g, t);
      && LogsOk(c, g'.s.prod.head, g'.s.cons.tail, g'.enqueued, g'.dequeued)
      && SlotsHold(c, g'.s.slots, g'.enqueued, At(c, g'.s.cons.tail), At(c, g'.s.prod.tail))
  {
    var g', th := Committed(c, g, t), g.s.threads[t];
    AtOrder(c, g.s.prod.tail, g.s.prod.head);
    AtOrder(c, 0, th.n);
    AtAdds(c, th.lo, th.n);
    SlotsHoldFrame(c, g.s.slots, g.enqueued, g'.enqueued, At(c, g.s.cons.tail), At(c, g.s.prod.tail));
  }

  // ----- copying one word

  predicate CopiesWord(c: Config, s: State, t: nat)
    requires t < |s.threads|
  {
    s.threads[t].Copy? && |s.threads[t].moved| < At(c, s.threads[t].n)
  }

  /** The word position a copying thread is at. */
  function CopyAt(c: Config, th: Thread): int
    requires th.Copy?
  {
    At(c, th.lo) + |th.moved|
  }

  function Moving(th: Thread, w: Word): Thread
    requires th.Copy?
  {
    Copy(th.req, th.lo, th.room, th.n, th.moved + [w])
  }

  /** It lies inside the thread's reservation, hence in the window of capacity elements after the consumer tail. */
  ghost predicate Placed(c: Config, g: Logged, t: nat)
    requires t < |g.s.threads| && g.s.threads[t].Copy? && c.size > 0 && c.Lap() > 0
  {
    var th := g.s.threads[t]; var own := g.s.Own(th.req.side); var p := CopyAt(c, th);
    && 0 <= At(c, own.tail) <= p < At(c, own.head) <= |g.enqueued|
    && At(c, g.s.cons.tail) <= p < At(c, g.s.cons.tail + c.capacity)
    && (th.req.side == Consumer ==> p < At(c, g.s.prod.tail))
    && (th.req.side == Producer ==> At(c, g.s.prod.tail) <= p)
    && CopySlot(c, th.lo, |th.moved|) == SlotOf(c, p)
  }

  lemma CopyInWindow(c: Config, g: Logged, t: nat)
    requires Inv(c, g) && t < |g.s.threads| && CopiesWord(c, g.s, t)
    ensures Placed(c, g, t)
  {
    var th := g.s.threads[t];
    assert ThreadOk(c, g.s.prod, g.s.cons, g.s.slots, g.enqueued, th);
    CopySlotAt(c, th.lo, |th.moved|, CopyAt(c, th));
    HolderBounds(g.s.threads, g.s.Own(th.req.side), th.req.side, g.Queue(th.req.side), t);
    CopyWindow(c, g.s.prod, g.s.cons, th, CopyAt(c, th));
  }

  lemma CopyWindow(c: Config, prod: HeadTail, cons: HeadTail, th: Thread, p: int)
    requires c.scale > 0 && Counters(c, prod, cons) && th.Copy? && |th.moved| < At(c, th.n) && p == CopyAt(c, th)
    requires var own := Pick(prod, cons, th.req.side); own.tail <= th.lo && th.lo + th.n <= own.head
    ensures var own := Pick(prod, cons, th.req.side);
      0 <= At(c, own.tail) <= p < At(c, own.head) <= At(c, prod.head)
    ensures At(c, cons.tail) <= p < At(c, cons.tail + c.capacity)
    ensures th.req.side == Consumer ==> p < At(c, prod.tail)
    ensures th.req.side == Producer ==> At(c, prod.tail) <= p
  {
    var own := Pick(prod, cons, th.req.side);
    WindowOrder(c, prod, cons);
    AtOrder(c, own.tail, th.lo);
    AtOrder(c, th.lo + th.n, own.head);
    AtAdds(c, th.lo, th.n);
  }

  /** The order of the counters, in word positions. */
  lemma WindowOrder(c: Config, prod: HeadTail, cons: HeadTail)
    requires c.scale > 0 && Counters(c, prod, cons)
    ensures 0 <= At(c, cons.tail) <= At(c, cons.head) <= At(c, prod.tail) <= At(c, prod.head) <=
            At(c, cons.tail + c.capacity)
  {
    assert At(c, 0) == 0;
    AtOrder(c, 0, cons.tail);
    AtOrder(c, cons.tail, cons.head);
    AtOrder(c, cons.head, prod.tail);
    AtOrder(c, prod.tail, prod.head);
    AtOrder(c, prod.head, cons.tail + c.capacity);
  }

  /** A store at one position of the window leaves the slots of the others alone. */
  lemma SlotsHoldStore(c: Config, slots: seq<Word>, log: seq<Word>, tail: int, from: int, to: int, p: int, w: Word)
    requires c.Ok() && |slots| == c.Lap() && SlotsHold(c, slots, log, from, to)
    requires At(c, tail) <= from && to <= At(c, tail + c.capacity)
    requires At(c, tail) <= p < At(c, tail + c.capacity) && !(from <= p < to)
    ensures SlotsHold(c, slots[SlotOf(c, p) := w], log, from, to)
  {
    forall q | from <= q < to ensures SlotOf(c, q) != SlotOf(c, p) {
      if q < p {
        WindowSlots(c, tail, q, p);
      } else {
        WindowSlots(c, tail, p, q);
      }
    }
  }

  lemma SlotsHoldExtend(c: Config, slots: seq<Word>, log: seq<Word>, tail: int, from: int, to: int)
    requires c.Ok() && |slots| == c.Lap() && SlotsHold(c, slots, log, from, to)
    requires At(c, tail) <= from <= to < At(c, tail + c.capacity) && 0 <= to < |log|
    ensures SlotsHold(c, slots[SlotOf(c, to) := log[to]], log, from, to + 1)
  {
    SlotsHoldStore(c, slots, log, tail, from, to, to, log[to]);
  }

  lemma SegmentExtend(log: seq<Word>, from: int, words: seq<Word>)
    requires Segment(log, from, words) && from + |words| < |log|
    ensures Segment(log, from, words + [log[from + |words|]])
  {
  }

  /** A consumer's next word is the one logged at its position. */
  lemma CopyOutIs(c: Config, g: Logged, t: nat)
    requires Inv(c, g) && t < |g.s.threads| && CopiesWord(c, g.s, t) && g.s.threads[t].req.side == Consumer
    ensures var p := CopyAt(c, g.s.threads[t]);
      && 0 <= p < |g.enqueued|
      && NextLogged(c, g, Go(t)) == g.(s := g.s.WithThread(t, Moving(g.s.threads[t], g.enqueued[p])))
  {
    CopyInWindow(c, g, t);
    assert g.s.slots[SlotOf(c, CopyAt(c, g.s.threads[t]))] == g.enqueued[CopyAt(c, g.s.threads[t])];
    CopyOutStep(c, g, t);
  }

  lemma CopyOutStep(c: Config, g: Logged, t: nat)
    requires c.size > 0 && |g.s.slots| == c.Lap() > 0
    requires t < |g.s.threads| && CopiesWord(c, g.s, t) && g.s.threads[t].req.side == Consumer
    ensures var th := g.s.threads[t];
      NextLogged(c, g, Go(t)) == g.(s := g.s.WithThread(t, Moving(th, g.s.slots[CopySlot(c, th.lo, |th.moved|)])))
  {
  }

  lemma MovingOut(c: Config, prod: HeadTail, cons: HeadTail, slots: seq<Word>, log: seq<Word>, th: Thread)
    requires |slots| == c.Lap() > 0 && ThreadOk(c, prod, cons, slots, log, th)
    requires th.Copy? && th.req.side == Consumer && |th.moved| < At(c, th.n) && 0 <= CopyAt(c, th) < |log|
    ensures ThreadOk(c, prod, cons, slots, log, Moving(th, log[CopyAt(c, th)]))
  {
    SegmentExtend(log, At(c, th.lo), th.moved);
  }

  lemma CopyOutKeeps(c: Config, g: Logged, t: nat)
    requires Inv(c, g) && t < |g.s.threads| && CopiesWord(c, g.s, t) && g.s.threads[t].req.side == Consumer
    ensures Inv(c, NextLogged(c, g, Go(t)))
  {
    var th := g.s.threads[t];
    CopyOutIs(c, g, t);
    var th' := Moving(th, g.enqueued[CopyAt(c, th)]);
    MovingOut(c, g.s.prod, g.s.cons, g.s.slots, g.enqueued, th);
    AloneReplace(c, g.s.threads, t, th');
    ReplaceThread(c, g, t, th');
  }

  /** A producer's next word is the one logged at its position. */
  lemma SuppliedWord(c: Config, log: seq<Word>, th: Thread)
    requires th.Copy? && |th.moved| < At(c, th.n) && Segment(log, At(c, th.lo), Supplied(c, th))
    ensures 0 <= CopyAt(c, th) < |log| && log[CopyAt(c, th)] == ObjWord(th.req, |th.moved|)
  {
    assert Supplied(c, th)[|th.moved|] == ObjWord(th.req, |th.moved|);
  }

  /** A producer's store as a value. */
  function Stored(c: Config, g: Logged, t: nat): Logged
    requires c.Lap() == |g.s.slots| > 0 && t < |g.s.threads| && CopiesWord(c, g.s, t)
  {
    var th := g.s.threads[t];
    var w := ObjWord(th.req, |th.moved|);
    var s' := g.s.(slots := g.s.slots[SlotOf(c, CopyAt(c, th)) := w]);
    g.(s := s'.WithThread(t, Moving(th, w)))
  }

  lemma StoredThread(c: Config, g: Logged, t: nat, u: nat)
    requires Inv(c, g) && t < |g.s.threads| && CopiesWord(c, g.s, t) && g.s.threads[t].req.side == Producer
    requires u < |g.s.threads| && u != t && Placed(c, g, t)
    ensures ThreadOk(c, g.s.prod, g.s.cons, Stored(c, g, t).s.slots, g.enqueued, g.s.threads[u])
  {
    var other := g.s.threads[u];
    assert ThreadOk(c, g.s.prod, g.s.cons, g.s.slots, g.enqueued, other);
    if other.Holds(Producer) {
      HeldSlots(c, g, u);
      ReservationsApart(c, g, t, u);
      StoredApart(c, g, t, other);
    }
    ThreadFrame(c, g.s.prod, g.s.cons, g.s.slots, g.enqueued,
                g.s.prod, g.s.cons, Stored(c, g, t).s.slots, g.enqueued, other);
  }

  /** A store by one producer leaves the words another producer has copied in their slots. */
  lemma StoredApart(c: Config, g: Logged, t: nat, other: Thread)
    requires c.Ok() && |g.s.slots| == c.Lap() && t < |g.s.threads| && CopiesWord(c, g.s, t)
    requires Placed(c, g, t) && other.InFlight() && ClearOf(c, g.s.cons.tail, other, CopyAt(c, g.s.threads[t]))
    requires SlotsHold(c, g.s.slots, g.enqueued, At(c, other.lo), At(c, other.lo) + |other.moved|)
    ensures SlotsHold(c, Stored(c, g, t).s.slots, g.enqueued, At(c, other.lo), At(c, other.lo) + |other.moved|)
  {
    var th := g.s.threads[t];
    SlotsHoldStore(c, g.s.slots, g.enqueued, g.s.cons.tail, At(c, other.lo), At(c, other.lo) + |other.moved|,
                   CopyAt(c, th), ObjWord(th.req, |th.moved|));
  }

  /** The words a producer has copied are in the window, and not at word position p. */
  ghost predicate ClearOf(c: Config, consTail: int, other: Thread, p: int)
    requires other.InFlight()
  {
    && At(c, consTail) <= At(c, other.lo) && At(c, other.lo) + |other.moved| <= At(c, consTail + c.capacity)
    && !(At(c, other.lo) <= p < At(c, other.lo) + |other.moved|)
  }

  lemma HeldSlots(c: Config, g: Logged, u: nat)
    requires |g.s.slots| == c.Lap() > 0 && u < |g.s.threads| && g.s.threads[u].Holds(Producer)
    requires ThreadsOk(c, g.s.prod, g.s.cons, g.s.slots, g.enqueued, g.s.threads)
    ensures var other := g.s.threads[u];
            && SlotsHold(c, g.s.slots, g.enqueued, At(c, other.lo), At(c, other.lo) + |other.moved|)
            && |other.moved| <= At(c, other.n)
  {
    assert ThreadOk(c, g.s.prod, g.s.cons, g.s.slots, g.enqueued, g.s.threads[u]);
  }

  lemma ReservationsApart(c: Config, g: Logged, t: nat, u: nat)
    requires c.scale > 0 && Counters(c, g.s.prod, g.s.cons) && QueuesOk(g) && |g.s.slots| == c.Lap() > 0
    requires ThreadsOk(c, g.s.prod, g.s.cons, g.s.slots, g.enqueued, g.s.threads)
    requires t < |g.s.threads| && CopiesWord(c, g.s, t) && g.s.threads[t].req.side == Producer
    requires u < |g.s.threads| && u != t && g.s.threads[u].Holds(Producer)
    ensures ClearOf(c, g.s.cons.tail, g.s.threads[u], CopyAt(c, g.s.threads[t]))
  {
    assert Tiles(g.s.threads, g.s.Own(Producer), Producer, g.Queue(Producer));
    HoldersApart(g.s.threads, g.s.prod, Producer, g.prodQueue, t, u);
    HolderBounds(g.s.threads, g.s.prod, Producer, g.prodQueue, u);
    HeldSlots(c, g, u);
    PiecesApart(c, g.s.prod, g.s.cons, g.s.threads[t], g.s.threads[u]);
  }

  /** Disjoint reservations inside [tail, head) in word positions. */
  lemma PiecesApart(c: Config, prod: HeadTail, cons: HeadTail, th: Thread, other: Thread)
    requires c.scale > 0 && Counters(c, prod, cons) && th.Copy? && other.InFlight()
    requires |th.moved| < At(c, th.n) && |other.moved| <= At(c, other.n)
    requires prod.tail <= other.lo && other.lo + other.n <= prod.head
    requires th.lo + th.n <= other.lo || other.lo + other.n <= th.lo
    ensures ClearOf(c, cons.tail, other, CopyAt(c, th))
  {
    WindowOrder(c, prod, cons);
    AtAdds(c, th.lo, th.n);
    AtAdds(c, other.lo, other.n);
    AtOrder(c, prod.tail, other.lo);
    AtOrder(c, other.lo + other.n, prod.head);
    if th.lo + th.n <= other.lo {
      AtOrder(c, th.lo + th.n, other.lo);
    } else {
      AtOrder(c, other.lo + other.n, th.lo);
    }
  }

  lemma StoredSelf(c: Config, g: Logged, t: nat)
    requires c.Ok() && |g.s.slots| == c.Lap() && Counters(c, g.s.prod, g.s.cons) && QueuesOk(g)
    requires t < |g.s.threads| && CopiesWord(c, g.s, t) && g.s.threads[t].req.side == Producer
    requires ThreadOk(c, g.s.prod, g.s.cons, g.s.slots, g.enqueued, g.s.threads[t])
    requires CopyAt(c, g.s.threads[t]) < At(c, g.s.cons.tail + c.capacity)
    ensures var g' := Stored(c, g, t);
            ThreadOk(c, g'.s.prod, g'.s.cons, g'.s.slots, g'.enqueued, g'.s.threads[t])
  {
    var th := g.s.threads[t];
    SuppliedWord(c, g.enqueued, th);
    HeldInWindow(c, g, t);
    MovingIn(c, g.s.prod, g.s.cons, g.s.slots, g.enqueued, th);
  }

  lemma HeldInWindow(c: Config, g: Logged, t: nat)
    requires c.scale > 0 && Counters(c, g.s.prod, g.s.cons) && QueuesOk(g)
    requires t < |g.s.threads| && g.s.threads[t].Holds(Producer)
    ensures At(c, g.s.cons.tail) <= At(c, g.s.threads[t].lo)
  {
    assert Tiles(g.s.threads, g.s.Own(Producer), Producer, g.Queue(Producer));
    HolderBounds(g.s.threads, g.s.prod, Producer, g.prodQueue, t);
    AtOrder(c, g.s.cons.tail, g.s.threads[t].lo);
  }

  lemma MovingIn(c: Config, prod: HeadTail, cons: HeadTail, slots: seq<Word>, log: seq<Word>, th: Thread)
    requires c.Ok() && |slots| == c.Lap() && ThreadOk(c, prod, cons, slots, log, th)
    requires th.Copy? && th.req.side == Producer && |th.moved| < At(c, th.n)
    requires At(c, cons.tail) <= At(c, th.lo) && CopyAt(c, th) < At(c, cons.tail + c.capacity)
    requires 0 <= CopyAt(c, th) < |log| && log[CopyAt(c, th)] == ObjWord(th.req, |th.moved|)
    ensures ThreadOk(c, prod, cons, slots[SlotOf(c, CopyAt(c, th)) := log[CopyAt(c, th)]], log,
                     Moving(th, ObjWord(th.req, |th.moved|)))
  {
    SegmentExtend(log, At(c, th.lo), th.moved);
    SlotsHoldExtend(c, slots, log, cons.tail, At(c, th.lo), CopyAt(c, th));
  }

  lemma CopyInKeeps(c: Config, g: Logged, t: nat)
    requires Inv(c, g) && t < |g.s.threads| && CopiesWord(c, g.s, t) && g.s.threads[t].req.side == Producer
    ensures Inv(c, NextLogged(c, g, Go(t)))
  {
    var g' := Stored(c, g, t);
    CopyInWindow(c, g, t);
    assert NextLogged(c, g, Go(t)) == g';
    StoredThreads(c, g, t);
    StoredSlots(c, g, t);
    SameHoldQueues(g, t, g'.s.threads[t]);
    AloneReplace(c, g.s.threads, t, g'.s.threads[t]);
    CopiedInv(c, g, g', t);
  }

  lemma StoredThreads(c: Config, g: Logged, t: nat)
    requires Inv(c, g) && t < |g.s.threads| && CopiesWord(c, g.s, t) && g.s.threads[t].req.side == Producer
    requires Placed(c, g, t)
    ensures var g' := Stored(c, g, t);
            ThreadsOk(c, g'.s.prod, g'.s.cons, g'.s.slots, g'.enqueued, g'.s.threads)
  {
    var g' := Stored(c, g, t);
    StoredSelf(c, g, t);
    forall u | 0 <= u < |g'.s.threads|
      ensures ThreadOk(c, g'.s.prod, g'.s.cons, g'.s.slots, g'.enqueued, g'.s.threads[u])
    {
      if u != t {
        StoredThread(c, g, t, u);
      }
    }
  }

  lemma StoredSlots(c: Config, g: Logged, t: nat)
    requires c.Ok() && |g.s.slots| == c.Lap() && Counters(c, g.s.prod, g.s.cons)
    requires t < |g.s.threads| && CopiesWord(c, g.s, t) && g.s.threads[t].req.side == Producer && Placed(c, g, t)
    requires SlotsHold(c, g.s.slots, g.enqueued, At(c, g.s.cons.tail), At(c, g.s.prod.tail))
    ensures SlotsHold(c, Stored(c, g, t).s.slots, g.enqueued, At(c, g.s.cons.tail), At(c, g.s.prod.tail))
  {
    var th := g.s.threads[t];
    WindowOrder(c, g.s.prod, g.s.cons);
    SlotsHoldStore(c, g.s.slots, g.enqueued, g.s.cons.tail, At(c, g.s.cons.tail), At(c, g.s.prod.tail),
                   CopyAt(c, th), ObjWord(th.req, |th.moved|));
  }

  lemma CopiedInv(c: Config, g: Logged, g': Logged, t: nat)
    requires Inv(c, g) && t < |g.s.threads| && CopiesWord(c, g.s, t) && g' == Stored(c, g, t)
    requires QueuesOk(g.(s := g.s.WithThread(t, g'.s.threads[t]))) && AllAlone(c, g'.s.threads)
    requires ThreadsOk(c, g'.s.prod, g'.s.cons, g'.s.slots, g'.enqueued, g'.s.threads)
    requires SlotsHold(c, g'.s.slots, g'.enqueued, At(c, g'.s.cons.tail), At(c, g'.s.prod.tail))
    ensures Inv(c, g')
  {
    var h := g.(s := g.s.WithThread(t, g'.s.threads[t]));
    assert h.s.threads == g'.s.threads;
    forall side: Side ensures Tiles(g'.s.threads, g'.s.Own(side), side, g'.Queue(side)) {
      assert Tiles(h.s.threads, h.s.Own(side), side, h.Queue(side));
    }
  }

  // ----- publication

  /** The oldest reservation leaves the queue, and the tail moves to where the next one starts. */
  lemma TilesPublish(threads: seq<Thread>, ht: HeadTail, side: Side, q: seq<nat>, t: nat, th: Thread)
    requires Tiles(threads, ht, side, q) && t < |threads| && threads[t].Holds(side) && !th.InFlight()
    requires q != [] && q[0] == t
    ensures Tiles(threads[t := th], HeadTail(ht.head, Hi(threads, t)), side, q[1..])
  {
    var threads' := threads[t := th];
    LaterAfterTail(threads, ht, side, q);
    forall i | 0 < i < |q| ensures q[i] != t && threads'[q[i]] == threads[q[i]] {
    }
    HoldersRest(threads, side, q, t, th);
    InOrderRest(threads, threads', ht, q);
  }

  lemma HoldersRest(threads: seq<Thread>, side: Side, q: seq<nat>, t: nat, th: Thread)
    requires Holders(threads, side, q) && t < |threads| && !th.InFlight() && q != [] && q[0] == t
    requires forall i :: 0 < i < |q| ==> q[i] != t
    ensures Holders(threads[t := th], side, q[1..])
  {
    var threads', q' := threads[t := th], q[1..];
    assert forall i :: 0 <= i < |q'| ==> q'[i] == q[i + 1];
    forall u | 0 <= u < |threads'| && threads'[u].Holds(side) ensures u in q' {
      var i :| 0 <= i < |q| && q[i] == u;
      assert q'[i - 1] == u;
    }
  }

  lemma InOrderRest(threads: seq<Thread>, threads': seq<Thread>, ht: HeadTail, q: seq<nat>)
    requires |threads'| == |threads| && q != [] && Flying(threads, q)
    requires forall i :: 0 < i < |q| ==> threads'[q[i]] == threads[q[i]]
    requires InOrder(threads, ht, q)
    ensures Flying(threads', q[1..])
    ensures InOrder(threads', HeadTail(ht.head, Hi(threads, q[0])), q[1..])
  {
    var q', ht' := q[1..], HeadTail(ht.head, Hi(threads, q[0]));
    assert Flying(threads', q');
    forall i | 0 <= i < |q'|
      ensures q'[i] == q[i + 1]
      ensures Lo(threads', q'[i]) == Lo(threads, q[i + 1]) && Hi(threads', q'[i]) == Hi(threads, q[i + 1])
    {
    }
    assert Within(threads', ht', q');
    assert Apart(threads', q');
    LinkedRest(threads, threads', ht, q);
  }

  lemma LinkedRest(threads: seq<Thread>, threads': seq<Thread>, ht: HeadTail, q: seq<nat>)
    requires |threads'| == |threads| && q != [] && Flying(threads, q) && Flying(threads', q[1..])
    requires forall i :: 0 < i < |q| ==> threads'[q[i]] == threads[q[i]]
    requires Linked(threads, ht, q)
    ensures Linked(threads', HeadTail(ht.head, Hi(threads, q[0])), q[1..])
  {
    var q' := q[1..];
    assert |q| > 1 ==> Hi(threads, q[0]) == Lo(threads, q[1]);
    forall i | 0 <= i < |q'| - 1 ensures Hi(threads', q'[i]) == Lo(threads', q'[i + 1]) {
      assert Hi(threads', q'[i]) == Hi(threads, q[i + 1]);
    }
  }

  function AfterPublish(g: Logged, t: nat): Logged
    requires t < |g.s.threads| && g.s.threads[t].Publish?
  {
    var Publish(req, lo, room, n, moved) := g.s.threads[t];
    var q := g.Queue(req.side);
    g.WithQueue(req.side, if q == [] then [] else q[1..])
     .(s := g.s.WithOwn(req.side, g.s.Own(req.side).(tail := lo + n)).WithThread(t, Done(req, lo, room, n, moved)),
       dequeued := if req.side == Consumer then g.dequeued + moved else g.dequeued)
  }

  lemma AfterPublishIs(c: Config, g: Logged, t: nat)
    requires c.size > 0 && |g.s.slots| == c.Lap() > 0 && t < |g.s.threads| && g.s.threads[t].Publish?
    ensures NextLogged(c, g, Go(t)) == AfterPublish(g, t)
  {
  }

  lemma AfterPublishParts(g: Logged, t: nat)
    requires t < |g.s.threads| && g.s.threads[t].Publish?
    ensures var Publish(req, lo, room, n, moved), g' := g.s.threads[t], AfterPublish(g, t);
      && g'.s.threads == g.s.threads[t := Done(req, lo, room, n, moved)]
      && g'.s.Own(req.side) == HeadTail(g.s.Own(req.side).head, lo + n)
      && g'.s.Opposite(req.side) == g.s.Opposite(req.side)
      && g'.Queue(req.side) == (if g.Queue(req.side) == [] then [] else g.Queue(req.side)[1..])
      && g'.Queue(req.side.Other()) == g.Queue(req.side.Other())
  {
  }

  lemma PublishedQueues(c: Config, g: Logged, t: nat)
    requires QueuesOk(g) && t < |g.s.threads| && g.s.threads[t].Publish?
    requires g.s.threads[t].lo == g.s.Own(g.s.threads[t].req.side).tail
    ensures QueuesOk(AfterPublish(g, t))
  {
    var Publish(req, lo, room, n, moved) := g.s.threads[t];
    var th := Done(req, lo, room, n, moved);
    AfterPublishParts(g, t);
    PublishedTiles(g, t, th);
    OtherSideTiles(g.s.threads, g.s.Opposite(req.side), req.side.Other(), g.Queue(req.side.Other()), t, th);
    BothSides(AfterPublish(g, t), req.side);
  }

  lemma PublishedTiles(g: Logged, t: nat, th: Thread)
    requires QueuesOk(g) && t < |g.s.threads| && g.s.threads[t].Publish? && !th.InFlight()
    requires g.s.threads[t].lo == g.s.Own(g.s.threads[t].req.side).tail
    ensures var side := g.s.threads[t].req.side;
            && g.Queue(side) != []
            && Tiles(g.s.threads[t := th], HeadTail(g.s.Own(side).head, Hi(g.s.threads, t)), side, g.Queue(side)[1..])
  {
    var side := g.s.threads[t].req.side;
    OldestAtTail(g.s.threads, g.s.Own(side), side, g.Queue(side), t);
    TilesPublish(g.s.threads, g.s.Own(side), side, g.Queue(side), t, th);
  }

  /** No other thread of the side is about to publish, and what the rest know is not disturbed. */
  lemma PublishedThread(c: Config, g: Logged, t: nat, u: nat)
    requires Inv(c, g) && t < |g.s.threads| && g.s.threads[t].Publish? && u < |g.s.threads| && u != t
    requires g.s.threads[t].lo == g.s.Own(g.s.threads[t].req.side).tail && g.s.threads[t].n > 0
    ensures var g' := AfterPublish(g, t);
            ThreadOk(c, g'.s.prod, g'.s.cons, g'.s.slots, g'.enqueued, g.s.threads[u])
  {
    var g', th, other := AfterPublish(g, t), g.s.threads[t], g.s.threads[u];
    assert ThreadOk(c, g.s.prod, g.s.cons, g.s.slots, g.enqueued, other);
    OneAtTail(g, t, u);
    if other.Holds(Producer) {
      HeldSlots(c, g, u);
    }
    ThreadFrame(c, g.s.prod, g.s.cons, g.s.slots, g.enqueued,
                g'.s.prod, g'.s.cons, g'.s.slots, g'.enqueued, other);
  }

  /** Two different threads never hold reservations of one side that both start at its tail. */
  lemma OneAtTail(g: Logged, t: nat, u: nat)
    requires QueuesOk(g) && t < |g.s.threads| && u < |g.s.threads| && u != t
    requires g.s.threads[t].InFlight() && g.s.threads[t].lo == g.s.Own(g.s.threads[t].req.side).tail
    ensures g.s.threads[u].Holds(g.s.threads[t].req.side) ==> g.s.threads[u].lo != g.s.threads[t].lo
  {
    var side := g.s.threads[t].req.side;
    assert Tiles(g.s.threads, g.s.Own(side), side, g.Queue(side));
    OldestAtTail(g.s.threads, g.s.Own(side), side, g.Queue(side), t);
    LaterAfterTail(g.s.threads, g.s.Own(side), side, g.Queue(side));
  }

  /** What was copied before the tail moves is stored once it has. */
  lemma SlotsHoldJoin(c: Config, slots: seq<Word>, log: seq<Word>, from: int, mid: int, to: int)
    requires |slots| == c.Lap() > 0
    requires SlotsHold(c, slots, log, from, mid) && SlotsHold(c, slots, log, mid, to)
    ensures SlotsHold(c, slots, log, from, to)
  {
  }

  lemma PublisherKnows(c: Config, g: Logged, t: nat)
    requires Inv(c, g) && t < |g.s.threads| && g.s.threads[t].Publish?
    ensures var th := g.s.threads[t]; var own := g.s.Own(th.req.side);
      && th.lo == own.tail && 0 < th.n && th.lo + th.n <= own.head && |th.moved| == At(c, th.n)
      && Segment(g.enqueued, At(c, th.lo), th.moved)
      && RequestOk(c, th.req) && 0 <= th.room && th.n == Granted(th.req.max, th.room, th.req.behavior)
  {
    var th := g.s.threads[t];
    assert ThreadOk(c, g.s.prod, g.s.cons, g.s.slots, g.enqueued, th);
    assert Tiles(g.s.threads, g.s.Own(th.req.side), th.req.side, g.Queue(th.req.side));
    HolderBounds(g.s.threads, g.s.Own(th.req.side), th.req.side, g.Queue(th.req.side), t);
  }

  lemma PublishedLogs(c: Config, g: Logged, t: nat)
    requires c.scale > 0 && LogsOk(c, g.s.prod.head, g.s.cons.tail, g.enqueued, g.dequeued)
    requires t < |g.s.threads| && g.s.threads[t].Publish?
    requires var th := g.s.threads[t];
      && th.lo == g.s.Own(th.req.side).tail && 0 < th.n && |th.moved| == At(c, th.n)
      && Segment(g.enqueued, At(c, th.lo), th.moved)
    ensures var g' := AfterPublish(g, t);
            LogsOk(c, g'.s.prod.head, g'.s.cons.tail, g'.enqueued, g'.dequeued)
  {
    var th := g.s.threads[t];
    if th.req.side == Consumer {
      DeliveredPrefix(c, g.s.cons.tail, g.enqueued, g.dequeued, th);
    }
  }

  lemma PublishedSlots(c: Config, g: Logged, t: nat)
    requires |g.s.slots| == c.Lap() > 0 && c.scale > 0
    requires ThreadsOk(c, g.s.prod, g.s.cons, g.s.slots, g.enqueued, g.s.threads)
    requires SlotsHold(c, g.s.slots, g.enqueued, At(c, g.s.cons.tail), At(c, g.s.prod.tail))
    requires t < |g.s.threads| && g.s.threads[t].Publish?
    requires var th := g.s.threads[t]; th.lo == g.s.Own(th.req.side).tail && 0 < th.n && |th.moved| == At(c, th.n)
    ensures var g' := AfterPublish(g, t);
            SlotsHold(c, g'.s.slots, g'.enqueued, At(c, g'.s.cons.tail), At(c, g'.s.prod.tail))
  {
    var th := g.s.threads[t];
    if th.req.side == Producer {
      HeldSlots(c, g, t);
      AtAdds(c, th.lo, th.n);
      SlotsHoldJoin(c, g.s.slots, g.enqueued, At(c, g.s.cons.tail), At(c, th.lo), At(c, th.lo + th.n));
    } else {
      AtOrder(c, th.lo, th.lo + th.n);
    }
  }

  /** Words published by a consumer continue the dequeued log exactly where it ended. */
  lemma DeliveredPrefix(c: Config, tail: int, enqueued: seq<Word>, dequeued: seq<Word>, th: Thread)
    requires c.scale > 0 && th.Publish? && th.lo == tail && 0 < th.n && |th.moved| == At(c, th.n)
    requires |dequeued| == At(c, tail) && dequeued <= enqueued && Segment(enqueued, At(c, th.lo), th.moved)
    ensures |dequeued + th.moved| == At(c, th.lo + th.n) && dequeued + th.moved <= enqueued
  {
    AtAdds(c, th.lo, th.n);
    assert dequeued + th.moved == enqueued[..|dequeued| + |th.moved|];
  }

  lemma PublishKeeps(c: Config, g: Logged, t: nat)
    requires Inv(c, g) && t < |g.s.threads| && g.s.threads[t].Publish?
    ensures Inv(c, NextLogged(c, g, Go(t)))
  {
    var g', th := AfterPublish(g, t), g.s.threads[t];
    AfterPublishIs(c, g, t);
    PublisherKnows(c, g, t);
    PublishedQueues(c, g, t);
    PublishedLogs(c, g, t);
    PublishedSlots(c, g, t);
    AloneReplace(c, g.s.threads, t, g'.s.threads[t]);
    forall u | 0 <= u < |g'.s.threads|
      ensures ThreadOk(c, g'.s.prod, g'.s.cons, g'.s.slots, g'.enqueued, g'.s.threads[u])
    {
      if u != t {
        PublishedThread(c, g, t, u);
      }
    }
  }

  // ----- every step, every run

  /** One step of any thread keeps the invariant. */
  lemma NextKeeps(c: Config, g: Logged, l: Label)
    requires Inv(c, g)
    ensures Inv(c, NextLogged(c, g, l))
  {
    if l.t < |g.s.threads| {
      var th := g.s.threads[l.t];
      match l
      case Begin(t, req) =>
        if th.Idle? && MayBegin(c, g.s, req) {
          BeginKeeps(c, g, t, req);
        }
      case Go(t) =>
        if LocalStep(c, g.s, th) {
          LocalKeeps(c, g, t);
        } else if th.Commit? {
          CommitKeeps(c, g, t);
        } else if th.Publish? {
          PublishKeeps(c, g, t);
        } else if th.Copy? && th.req.side == Producer {
          CopyInKeeps(c, g, t);
        } else if th.Copy? {
          CopyOutKeeps(c, g, t);
        }
    }
  }

  lemma InitialInv(c: Config, threads: nat)
    requires c.Ok()
    ensures Inv(c, RunLogged(c, threads, []))
  {
  }

  /** The invariant holds after every schedule of every number of threads. */
  lemma {:induction false} ReachableInv(c: Config, threads: nat, ls: seq<Label>)
    requires c.Ok()
    ensures c.size > 0 && Inv(c, RunLogged(c, threads, ls))
    decreases |ls|
  {
    if ls == [] {
      InitialInv(c, threads);
    } else {
      ReachableInv(c, threads, ls[..|ls| - 1]);
      NextKeeps(c, RunLogged(c, threads, ls[..|ls| - 1]), ls[|ls| - 1]);
    }
  }
}
