/** Deadlock freedom of the ring protocol: the oldest reservation can always publish, so all of them drain. */
module RingProgress {
  import opened RingProtocol
  import opened RingInvariant
  import opened RingSteps

  /** Instructions a thread still has to execute, not counting spins, until its reservation is published. */
  function Remaining(c: Config, th: Thread): nat {
    match th
    case Copy(_, _, _, n, moved) => (if At(c, n) >= |moved| then At(c, n) - |moved| else 0) + 3
    case Wait(_, _, _, _, _) => 2
    case Publish(_, _, _, _, _) => 1
    case _ => 0
  }

  /** The ranking measure: what remains over all threads. */
  function Work(c: Config, threads: seq<Thread>): nat {
    if threads == [] then 0 else Remaining(c, threads[0]) + Work(c, threads[1..])
  }

  lemma {:induction false} WorkReplace(c: Config, threads: seq<Thread>, t: nat, th: Thread)
    requires t < |threads|
    ensures Work(c, threads[t := th]) == Work(c, threads) - Remaining(c, threads[t]) + Remaining(c, th)
    decreases |threads|
  {
    if t == 0 {
      assert threads[t := th][1..] == threads[1..];
    } else {
      assert threads[t := th][1..] == threads[1..][t - 1 := th];
      WorkReplace(c, threads[1..], t - 1, th);
    }
  }

  /** A thread that only polls the tail: its turn has not come. */
  predicate Spins(s: State, t: nat)
    requires t < |s.threads|
  {
    var th := s.threads[t];
    th.Wait? && s.Own(th.req.side).tail != th.lo
  }

  lemma NextThreads(c: Config, s: State, t: nat)
    requires c.size > 0 && |s.slots| == c.Lap() > 0 && t < |s.threads|
    ensures var s' := Next(Unbounded, c, s, Go(t)); s'.threads == s.threads[t := s'.threads[t]]
  {
  }

  lemma OneLess(c: Config, s: State, t: nat)
    requires c.size > 0 && |s.slots| == c.Lap() > 0 && t < |s.threads|
    requires s.threads[t].InFlight() && !Spins(s, t)
    ensures Remaining(c, Next(Unbounded, c, s, Go(t)).threads[t]) < Remaining(c, s.threads[t])
  {
  }

  lemma NoMore(c: Config, s: State, t: nat)
    requires c.size > 0 && |s.slots| == c.Lap() > 0 && t < |s.threads|
    requires !CommitSucceeds(c, s, t)
    ensures Remaining(c, Next(Unbounded, c, s, Go(t)).threads[t]) <= Remaining(c, s.threads[t])
  {
  }

  /** Every instruction of a thread with a reservation lowers the measure, unless it only spins. */
  lemma WorkFalls(c: Config, s: State, t: nat)
    requires c.size > 0 && |s.slots| == c.Lap() > 0 && t < |s.threads|
    requires s.threads[t].InFlight() && !Spins(s, t)
    ensures Work(c, Next(Unbounded, c, s, Go(t)).threads) < Work(c, s.threads)
  {
    OneLess(c, s, t);
    NextThreads(c, s, t);
    WorkReplace(c, s.threads, t, Next(Unbounded, c, s, Go(t)).threads[t]);
  }

  /** Nothing but a successful reservation raises it. */
  lemma WorkNeverGrows(c: Config, s: State, l: Label)
    requires c.size > 0 && |s.slots| == c.Lap() > 0
    requires l.Go? && l.t < |s.threads| ==> !CommitSucceeds(c, s, l.t)
    ensures Work(c, Next(Unbounded, c, s, l).threads) <= Work(c, s.threads)
  {
    if l.t < |s.threads| {
      match l
      case Begin(t, req) =>
        WorkReplace(c, s.threads, t, LoadHead(req));
      case Go(t) =>
        NoMore(c, s, t);
        NextThreads(c, s, t);
        WorkReplace(c, s.threads, t, Next(Unbounded, c, s, l).threads[t]);
    }
  }

  /** The reservation of thread t starts at the tail of the side. */
  predicate OldestOf(s: State, side: Side, t: nat) {
    t < |s.threads| && s.threads[t].Holds(side) && s.threads[t].lo == s.Own(side).tail
  }

  /**
   Whenever a side has anything unpublished, exactly one thread's reservation starts at the tail, and that
   thread is not held up: its next instruction lowers the measure.
   */
  lemma OldestCanMove(c: Config, threads: nat, ls: seq<Label>, side: Side) returns (t: nat)
    requires c.Ok() && c.size > 0
    requires var s := Run(Unbounded, c, threads, ls); s.Own(side).tail != s.Own(side).head
    ensures var s := Run(Unbounded, c, threads, ls);
      && OldestOf(s, side, t) && !Spins(s, t)
      && (forall u :: OldestOf(s, side, u) ==> u == t)
      && Work(c, Next(Unbounded, c, s, Go(t)).threads) < Work(c, s.threads)
  {
    var g := RunLogged(c, threads, ls);
    ReachableInv(c, threads, ls);
    t := Oldest(c, g, side);
  }

  lemma Oldest(c: Config, g: Logged, side: Side) returns (t: nat)
    requires Inv(c, g) && c.size > 0 && g.s.Own(side).tail != g.s.Own(side).head
    ensures OldestOf(g.s, side, t) && !Spins(g.s, t)
    ensures forall u :: OldestOf(g.s, side, u) ==> u == t
    ensures Work(c, Next(Unbounded, c, g.s, Go(t)).threads) < Work(c, g.s.threads)
  {
    assert QueuesOk(g);
    assert Tiles(g.s.threads, g.s.Own(side), side, g.Queue(side));
    t := g.Queue(side)[0];
    forall u | OldestOf(g.s, side, u) ensures u == t {
      OldestAtTail(g.s.threads, g.s.Own(side), side, g.Queue(side), u);
    }
    assert g.s.threads[t].lo == Lo(g.s.threads, t);
    WorkFalls(c, g.s, t);
  }

  // ----- draining

  /** Threads ts execute one instruction each, in this order. */
  function GoAll(c: Config, g: Logged, ts: seq<nat>): (g': Logged)
    requires c.size > 0 && |g.s.slots| == c.Lap() > 0
    ensures |g'.s.slots| == c.Lap() && |g'.s.threads| == |g.s.threads|
    decreases |ts|
  {
    if ts == [] then g else GoAll(c, NextLogged(c, g, Go(ts[0])), ts[1..])
  }

  predicate Quiet(s: State) {
    s.prod.tail == s.prod.head && s.cons.tail == s.cons.head
  }

  /** Threads that publish what they hold never reserve more. */
  lemma HolderKeepsHeads(c: Config, s: State, t: nat)
    requires c.size > 0 && |s.slots| == c.Lap() > 0 && t < |s.threads| && s.threads[t].InFlight()
    ensures var s' := Next(Unbounded, c, s, Go(t)); s'.prod.head == s.prod.head && s'.cons.head == s.cons.head
    ensures forall u :: 0 <= u < |s.threads| && Next(Unbounded, c, s, Go(t)).threads[u].InFlight() ==>
        s.threads[u].InFlight()
  {
  }

  /** No reservation was made on the way from g to g', and the threads holding one are among those that did. */
  predicate NothingReserved(g: Logged, g': Logged) {
    && g'.s.prod.head == g.s.prod.head && g'.s.cons.head == g.s.cons.head && g'.enqueued == g.enqueued
    && |g'.s.threads| == |g.s.threads|
    && forall u :: 0 <= u < |g.s.threads| && g'.s.threads[u].InFlight() ==> g.s.threads[u].InFlight()
  }

  /** One instruction towards quiet, by the oldest holder of a side that is not. */
  lemma DrainStep(c: Config, g: Logged) returns (t: nat)
    requires Inv(c, g) && c.size > 0 && !Quiet(g.s)
    ensures t < |g.s.threads| && g.s.threads[t].InFlight()
    ensures Inv(c, NextLogged(c, g, Go(t))) && NothingReserved(g, NextLogged(c, g, Go(t)))
    ensures Work(c, NextLogged(c, g, Go(t)).s.threads) < Work(c, g.s.threads)
  {
    var side := if g.s.prod.tail != g.s.prod.head then Producer else Consumer;
    t := Oldest(c, g, side);
    HolderKeepsHeads(c, g.s, t);
    NextKeeps(c, g, Go(t));
  }

  predicate AllHold(s: State, ts: seq<nat>) {
    forall i :: 0 <= i < |ts| ==> ts[i] < |s.threads| && s.threads[ts[i]].InFlight()
  }

  /**
   From every reachable state some schedule of at most Work instructions, all by threads that already hold a
   reservation, publishes every reservation while no head moves.
   */
  lemma {:induction false} Drains(c: Config, g: Logged) returns (ts: seq<nat>)
    requires Inv(c, g) && c.size > 0
    ensures |ts| <= Work(c, g.s.threads) && AllHold(g.s, ts)
    ensures Quiet(GoAll(c, g, ts).s) && Inv(c, GoAll(c, g, ts)) && NothingReserved(g, GoAll(c, g, ts))
    decreases Work(c, g.s.threads)
  {
    if Quiet(g.s) {
      ts := [];
    } else {
      var t := DrainStep(c, g);
      var rest := Drains(c, NextLogged(c, g, Go(t)));
      ts := [t] + rest;
      assert ts[1..] == rest;
      assert GoAll(c, g, ts) == GoAll(c, NextLogged(c, g, Go(t)), rest);
    }
  }

  /** Every state of every run can be drained, and then everything reserved by consumers has been delivered in order. */
  lemma DeadlockFree(c: Config, threads: nat, ls: seq<Label>) returns (ts: seq<nat>)
    requires c.Ok() && c.size > 0
    ensures var g := RunLogged(c, threads, ls);
      && |ts| <= Work(c, g.s.threads)
      && AllHold(g.s, ts)
      && var g' := GoAll(c, g, ts);
      && Quiet(g'.s) && g'.s.prod.head == g.s.prod.head && g'.s.cons.head == g.s.cons.head
      && 0 <= At(c, g.s.cons.head) <= |g.enqueued| && g'.dequeued == g.enqueued[..At(c, g.s.cons.head)]
  {
    ReachableInv(c, threads, ls);
    ts := Drains(c, RunLogged(c, threads, ls));
  }

  // ----- no schedule can keep the waiters from draining

  /** The instructions of threads holding reservations that do more than spin, along a schedule from s. */
  function Effective(c: Config, s: State, ls: seq<Label>): nat
    requires c.size > 0 && |s.slots| == c.Lap() > 0
    decreases |ls|
  {
    if ls == [] then 0
    else
      var l := ls[0];
      (if l.Go? && l.t < |s.threads| && s.threads[l.t].InFlight() && !Spins(s, l.t) then 1 else 0)
      + Effective(c, Next(Unbounded, c, s, l), ls[1..])
  }

  predicate NoReservations(c: Config, s: State, ls: seq<Label>)
    requires c.size > 0 && |s.slots| == c.Lap() > 0
    decreases |ls|
  {
    ls == [] ||
    ((ls[0].Go? && ls[0].t < |s.threads| ==> !CommitSucceeds(c, s, ls[0].t))
     && NoReservations(c, Next(Unbounded, c, s, ls[0]), ls[1..]))
  }

  /** Between reservations, the effective instructions of any schedule whatever are bounded by the measure. */
  lemma {:induction false} EffectiveBounded(c: Config, s: State, ls: seq<Label>)
    requires c.size > 0 && |s.slots| == c.Lap() > 0 && NoReservations(c, s, ls)
    ensures Effective(c, s, ls) <= Work(c, s.threads)
    decreases |ls|
  {
    if ls != [] {
      var l := ls[0];
      EffectiveBounded(c, Next(Unbounded, c, s, l), ls[1..]);
      WorkNeverGrows(c, s, l);
      if l.Go? && l.t < |s.threads| && s.threads[l.t].InFlight() && !Spins(s, l.t) {
        WorkFalls(c, s, l.t);
      }
    }
  }

  // ----- fair schedules drain

  function After(c: Config, g: Logged, ls: seq<Label>): (g': Logged)
    requires c.size > 0 && |g.s.slots| == c.Lap() > 0
    ensures |g'.s.slots| == c.Lap()
    decreases |ls|
  {
    if ls == [] then g else After(c, NextLogged(c, g, ls[0]), ls[1..])
  }

  /** Every thread that holds a reservation gets to execute an instruction. */
  predicate EveryHolderGoes(s: State, ls: seq<Label>) {
    forall t :: 0 <= t < |s.threads| && s.threads[t].InFlight() ==> Go(t) in ls
  }

  /** A schedule without new reservations, cut into rounds in each of which every holder has a turn. */
  predicate FairRounds(c: Config, g: Logged, rounds: seq<seq<Label>>)
    requires c.size > 0 && |g.s.slots| == c.Lap() > 0
    decreases |rounds|
  {
    rounds == [] ||
    (NoReservations(c, g.s, rounds[0]) && EveryHolderGoes(g.s, rounds[0])
     && FairRounds(c, After(c, g, rounds[0]), rounds[1..]))
  }

  function AfterRounds(c: Config, g: Logged, rounds: seq<seq<Label>>): (g': Logged)
    requires c.size > 0 && |g.s.slots| == c.Lap() > 0
    decreases |rounds|
  {
    if rounds == [] then g else AfterRounds(c, After(c, g, rounds[0]), rounds[1..])
  }

  lemma {:induction false} AfterKeeps(c: Config, g: Logged, ls: seq<Label>)
    requires Inv(c, g) && c.size > 0 && NoReservations(c, g.s, ls)
    ensures Inv(c, After(c, g, ls)) && Work(c, After(c, g, ls).s.threads) <= Work(c, g.s.threads)
    decreases |ls|
  {
    if ls == [] {
    } else {
      NextKeeps(c, g, ls[0]);
      WorkNeverGrows(c, g.s, ls[0]);
      AfterKeeps(c, NextLogged(c, g, ls[0]), ls[1..]);
    }
  }

  /** The oldest reservation stays the oldest until its own thread goes on. */
  lemma StaysOldest(c: Config, g: Logged, l: Label, side: Side, t: nat)
    requires Inv(c, g) && c.size > 0 && OldestOf(g.s, side, t) && l != Go(t)
    ensures OldestOf(Next(Unbounded, c, g.s, l), side, t)
  {
    assert Tiles(g.s.threads, g.s.Own(side), side, g.Queue(side)) by { assert QueuesOk(g); }
    HolderBounds(g.s.threads, g.s.Own(side), side, g.Queue(side), t);
    var oldest := Oldest(c, g, side);
    if l.Go? && l.t < |g.s.threads| && g.s.threads[l.t].Publish? {
      assert ThreadOk(c, g.s.prod, g.s.cons, g.s.slots, g.enqueued, g.s.threads[l.t]);
      PublisherIsOldest(g.s, side, l.t, t);
    }
    TailStays(c, g.s, l, side, t);
  }

  lemma PublisherIsOldest(s: State, side: Side, u: nat, t: nat)
    requires u < |s.threads| && s.threads[u].Publish? && u != t
    requires s.threads[u].lo == s.Own(s.threads[u].req.side).tail
    requires forall v, w :: OldestOf(s, side, v) && OldestOf(s, side, w) ==> v == w
    requires OldestOf(s, side, t)
    ensures s.threads[u].req.side != side
  {
    assert s.threads[u].req.side == side ==> OldestOf(s, side, u);
  }

  lemma TailStays(c: Config, s: State, l: Label, side: Side, t: nat)
    requires c.size > 0 && |s.slots| == c.Lap() > 0 && OldestOf(s, side, t) && l != Go(t)
    requires l.Go? && l.t < |s.threads| && s.threads[l.t].Publish? ==> s.threads[l.t].req.side != side
    ensures OldestOf(Next(Unbounded, c, s, l), side, t)
  {
  }

  /** A round in which the oldest holder has its turn lowers the measure. */
  lemma {:induction false} RoundLowers(c: Config, g: Logged, ls: seq<Label>, side: Side, t: nat)
    requires Inv(c, g) && c.size > 0 && NoReservations(c, g.s, ls) && OldestOf(g.s, side, t) && Go(t) in ls
    ensures Work(c, After(c, g, ls).s.threads) < Work(c, g.s.threads)
    decreases |ls|
  {
    var g' := NextLogged(c, g, ls[0]);
    NextKeeps(c, g, ls[0]);
    if ls[0] == Go(t) {
      WorkFalls(c, g.s, t);
      AfterKeeps(c, g', ls[1..]);
    } else {
      WorkNeverGrows(c, g.s, ls[0]);
      StaysOldest(c, g, ls[0], side, t);
      RoundLowers(c, g', ls[1..], side, t);
    }
  }

  lemma {:induction false} NoWork(c: Config, threads: seq<Thread>)
    requires forall t :: 0 <= t < |threads| ==> !threads[t].InFlight()
    ensures Work(c, threads) == 0
  {
    if threads == [] {
    } else {
      NoWork(c, threads[1..]);
    }
  }

  /** With nothing unpublished nobody holds a reservation. */
  lemma QuietNoWork(c: Config, g: Logged)
    requires Inv(c, g) && Quiet(g.s)
    ensures Work(c, g.s.threads) == 0
  {
    forall t | 0 <= t < |g.s.threads| ensures !g.s.threads[t].InFlight() {
      if g.s.threads[t].InFlight() {
        NotQuiet(g, t);
      }
    }
    NoWork(c, g.s.threads);
  }

  lemma NotQuiet(g: Logged, t: nat)
    requires QueuesOk(g) && t < |g.s.threads| && g.s.threads[t].InFlight()
    ensures !Quiet(g.s)
  {
    var side := g.s.threads[t].req.side;
    assert Tiles(g.s.threads, g.s.Own(side), side, g.Queue(side));
    HolderBounds(g.s.threads, g.s.Own(side), side, g.Queue(side), t);
  }

  /** One fair round lowers the measure unless there is nothing left to do. */
  lemma FairRound(c: Config, g: Logged, ls: seq<Label>)
    requires Inv(c, g) && c.size > 0 && NoReservations(c, g.s, ls) && EveryHolderGoes(g.s, ls)
    ensures Inv(c, After(c, g, ls))
    ensures Work(c, After(c, g, ls).s.threads) <= if Work(c, g.s.threads) == 0 then 0 else Work(c, g.s.threads) - 1
  {
    AfterKeeps(c, g, ls);
    if Quiet(g.s) {
      QuietNoWork(c, g);
    } else {
      var side := if g.s.prod.tail != g.s.prod.head then Producer else Consumer;
      var t := Oldest(c, g, side);
      RoundLowers(c, g, ls, side, t);
    }
  }

  /**
   Any fair schedule without new reservations, however it interleaves, publishes every reservation within as many
   rounds as there is work.
   */
  lemma {:induction false} FairDrains(c: Config, g: Logged, rounds: seq<seq<Label>>)
    requires Inv(c, g) && c.size > 0 && FairRounds(c, g, rounds) && |rounds| >= Work(c, g.s.threads)
    ensures Quiet(AfterRounds(c, g, rounds).s) && Inv(c, AfterRounds(c, g, rounds))
    decreases |rounds|
  {
    if rounds == [] {
      if !Quiet(g.s) {
        var side := if g.s.prod.tail != g.s.prod.head then Producer else Consumer;
        var t := Oldest(c, g, side);
      }
    } else {
      FairRound(c, g, rounds[0]);
      FairDrains(c, After(c, g, rounds[0]), rounds[1..]);
    }
  }

  // ----- a reservation is published however many new ones arrive

  /** What a thread still has to execute for a reservation of this side that starts below a position. */
  function RemainingBefore(c: Config, th: Thread, side: Side, hi: int): nat {
    if th.Holds(side) && th.lo < hi then Remaining(c, th) else 0
  }

  /** The work of all reservations of a side that start below a position. */
  function WorkBefore(c: Config, threads: seq<Thread>, side: Side, hi: int): nat {
    if threads == [] then 0 else RemainingBefore(c, threads[0], side, hi) + WorkBefore(c, threads[1..], side, hi)
  }

  lemma {:induction false} WorkBeforeReplace(c: Config, threads: seq<Thread>, t: nat, th: Thread, side: Side, hi: int)
    requires t < |threads|
    ensures WorkBefore(c, threads[t := th], side, hi)
         == WorkBefore(c, threads, side, hi) - RemainingBefore(c, threads[t], side, hi)
            + RemainingBefore(c, th, side, hi)
    decreases |threads|
  {
    if t == 0 {
      assert threads[t := th][1..] == threads[1..];
    } else {
      assert threads[t := th][1..] == threads[1..][t - 1 := th];
      WorkBeforeReplace(c, threads[1..], t - 1, th, side, hi);
    }
  }

  /** A new reservation starts at the head, so it adds nothing to the work below the head. */
  lemma NoMoreBefore(c: Config, s: State, t: nat, side: Side, hi: int)
    requires c.size > 0 && |s.slots| == c.Lap() > 0 && t < |s.threads| && hi <= s.Own(side).head
    requires CommitSucceeds(c, s, t) ==> s.threads[t].lo == s.Own(s.threads[t].req.side).head
    ensures RemainingBefore(c, Next(Unbounded, c, s, Go(t)).threads[t], side, hi)
         <= RemainingBefore(c, s.threads[t], side, hi)
  {
    if !CommitSucceeds(c, s, t) {
      NoMore(c, s, t);
    }
  }

  /** A thread that is about to move a counter of its side starts from where that counter is. */
  predicate StartsAtCounter(c: Config, s: State, l: Label) {
    l.Go? && l.t < |s.threads| ==>
      var th := s.threads[l.t];
      && (CommitSucceeds(c, s, l.t) ==> th.lo == s.Own(th.req.side).head && th.n > 0)
      && (th.Publish? ==> th.lo == s.Own(th.req.side).tail && th.n > 0)
  }

  lemma MoverStarts(c: Config, g: Logged, l: Label)
    requires Inv(c, g) && c.size > 0
    ensures StartsAtCounter(c, g.s, l)
  {
    if l.Go? && l.t < |g.s.threads| {
      assert ThreadOk(c, g.s.prod, g.s.cons, g.s.slots, g.enqueued, g.s.threads[l.t]);
      if CommitSucceeds(c, g.s, l.t) {
        CommitterKnows(c, g, l.t);
      }
    }
  }

  /** No instruction of any thread and no new call adds to it. */
  lemma WorkBeforeNeverGrows(c: Config, s: State, l: Label, side: Side, hi: int)
    requires c.size > 0 && |s.slots| == c.Lap() > 0 && hi <= s.Own(side).head && StartsAtCounter(c, s, l)
    ensures WorkBefore(c, Next(Unbounded, c, s, l).threads, side, hi) <= WorkBefore(c, s.threads, side, hi)
  {
    if l.t < |s.threads| {
      match l
      case Begin(t, req) =>
        WorkBeforeReplace(c, s.threads, t, LoadHead(req), side, hi);
      case Go(t) =>
        NoMoreBefore(c, s, t, side, hi);
        NextThreads(c, s, t);
        WorkBeforeReplace(c, s.threads, t, Next(Unbounded, c, s, l).threads[t], side, hi);
    }
  }

  /** The oldest reservation's next instruction lowers it. */
  lemma OldestLowers(c: Config, s: State, t: nat, side: Side, hi: int)
    requires c.size > 0 && |s.slots| == c.Lap() > 0 && OldestOf(s, side, t) && s.Own(side).tail < hi
    ensures WorkBefore(c, Next(Unbounded, c, s, Go(t)).threads, side, hi) < WorkBefore(c, s.threads, side, hi)
  {
    OneLess(c, s, t);
    NextThreads(c, s, t);
    WorkBeforeReplace(c, s.threads, t, Next(Unbounded, c, s, Go(t)).threads[t], side, hi);
  }

  lemma OwnNeverFalls(c: Config, s: State, l: Label, side: Side)
    requires c.size > 0 && |s.slots| == c.Lap() > 0 && StartsAtCounter(c, s, l)
    ensures var s' := Next(Unbounded, c, s, l);
      s.Own(side).head <= s'.Own(side).head && s.Own(side).tail <= s'.Own(side).tail
  {
  }

  /** What any label whatever leaves of a side: its counters never fall, and no work is added below its head. */
  lemma StepKeepsBefore(c: Config, g: Logged, l: Label, side: Side, hi: int)
    requires Inv(c, g) && c.size > 0 && hi <= g.s.Own(side).head
    ensures Inv(c, NextLogged(c, g, l))
    ensures var s' := Next(Unbounded, c, g.s, l);
      && g.s.Own(side).head <= s'.Own(side).head && g.s.Own(side).tail <= s'.Own(side).tail
      && WorkBefore(c, s'.threads, side, hi) <= WorkBefore(c, g.s.threads, side, hi)
  {
    NextKeeps(c, g, l);
    MoverStarts(c, g, l);
    OwnNeverFalls(c, g.s, l, side);
    WorkBeforeNeverGrows(c, g.s, l, side, hi);
  }

  lemma {:induction false} AfterKeepsBefore(c: Config, g: Logged, ls: seq<Label>, side: Side, hi: int)
    requires Inv(c, g) && c.size > 0 && hi <= g.s.Own(side).head
    ensures var g' := After(c, g, ls);
      && Inv(c, g') && g.s.Own(side).head <= g'.s.Own(side).head && g.s.Own(side).tail <= g'.s.Own(side).tail
      && WorkBefore(c, g'.s.threads, side, hi) <= WorkBefore(c, g.s.threads, side, hi)
    decreases |ls|
  {
    if ls == [] {
    } else {
      StepKeepsBefore(c, g, ls[0], side, hi);
      AfterKeepsBefore(c, NextLogged(c, g, ls[0]), ls[1..], side, hi);
    }
  }

  /** A round in which the oldest holder of the side has its turn lowers the work below a position not yet published. */
  lemma {:induction false} RoundLowersBefore(c: Config, g: Logged, ls: seq<Label>, side: Side, hi: int, t: nat)
    requires Inv(c, g) && c.size > 0 && g.s.Own(side).tail < hi <= g.s.Own(side).head
    requires OldestOf(g.s, side, t) && Go(t) in ls
    ensures WorkBefore(c, After(c, g, ls).s.threads, side, hi) < WorkBefore(c, g.s.threads, side, hi)
    decreases |ls|
  {
    var g' := NextLogged(c, g, ls[0]);
    StepKeepsBefore(c, g, ls[0], side, hi);
    if ls[0] == Go(t) {
      OldestLowers(c, g.s, t, side, hi);
      AfterKeepsBefore(c, g', ls[1..], side, hi);
    } else {
      StaysOldest(c, g, ls[0], side, t);
      assert g'.s.Own(side).tail == g.s.Own(side).tail by {
        OldestKeepsTail(c, g.s, ls[0], side, t);
      }
      RoundLowersBefore(c, g', ls[1..], side, hi, t);
    }
  }

  lemma OldestKeepsTail(c: Config, s: State, l: Label, side: Side, t: nat)
    requires c.size > 0 && |s.slots| == c.Lap() > 0 && OldestOf(s, side, t) && l != Go(t)
    requires OldestOf(Next(Unbounded, c, s, l), side, t)
    ensures Next(Unbounded, c, s, l).Own(side).tail == s.Own(side).tail
  {
  }

  /** Rounds in each of which every holder has a turn, with any other labels, new reservations too, in between. */
  predicate EachRoundFair(c: Config, g: Logged, rounds: seq<seq<Label>>)
    requires c.size > 0 && |g.s.slots| == c.Lap() > 0
    decreases |rounds|
  {
    rounds == [] || (EveryHolderGoes(g.s, rounds[0]) && EachRoundFair(c, After(c, g, rounds[0]), rounds[1..]))
  }

  /** One fair round, when the position is not yet published. */
  lemma FairRoundBefore(c: Config, g: Logged, ls: seq<Label>, side: Side, hi: int)
    requires Inv(c, g) && c.size > 0 && EveryHolderGoes(g.s, ls) && g.s.Own(side).tail < hi <= g.s.Own(side).head
    ensures WorkBefore(c, After(c, g, ls).s.threads, side, hi) < WorkBefore(c, g.s.threads, side, hi)
  {
    var t := Oldest(c, g, side);
    RoundLowersBefore(c, g, ls, side, hi, t);
  }

  /** A position not yet published has work below it. */
  lemma SomethingBefore(c: Config, g: Logged, side: Side, hi: int)
    requires Inv(c, g) && c.size > 0 && g.s.Own(side).tail < hi <= g.s.Own(side).head
    ensures WorkBefore(c, g.s.threads, side, hi) > 0
  {
    var t := Oldest(c, g, side);
    OldestLowers(c, g.s, t, side, hi);
  }

  /** Everything reserved at the start up to a position is published within as many rounds as there is work below it. */
  lemma {:induction false} FairReaches(c: Config, g: Logged, rounds: seq<seq<Label>>, side: Side, hi: int)
    requires Inv(c, g) && c.size > 0 && EachRoundFair(c, g, rounds) && hi <= g.s.Own(side).head
    requires |rounds| >= WorkBefore(c, g.s.threads, side, hi) || g.s.Own(side).tail >= hi
    ensures AfterRounds(c, g, rounds).s.Own(side).tail >= hi
    decreases |rounds|
  {
    if g.s.Own(side).tail < hi {
      SomethingBefore(c, g, side, hi);
      FairRoundBefore(c, g, rounds[0], side, hi);
    }
    if rounds != [] {
      AfterKeepsBefore(c, g, rounds[0], side, hi);
      FairReaches(c, After(c, g, rounds[0]), rounds[1..], side, hi);
    }
  }

  lemma HolderBelowHead(c: Config, g: Logged, t: nat)
    requires Inv(c, g) && t < |g.s.threads| && g.s.threads[t].InFlight()
    ensures g.s.threads[t].lo + g.s.threads[t].n <= g.s.Own(g.s.threads[t].req.side).head
  {
    var side := g.s.threads[t].req.side;
    assert QueuesOk(g);
    HolderBounds(g.s.threads, g.s.Own(side), side, g.Queue(side), t);
  }

  /**
   No starvation at the tail: from every reachable state, in any schedule that gives every holder a turn per round,
   whatever new reservations arrive meanwhile, a reservation up to position hi is published within as many rounds as
   there is work left in it and in the older ones of its side.
   */
  lemma FairPublishes(c: Config, threads: nat, ls: seq<Label>, t: nat, side: Side, hi: int, rounds: seq<seq<Label>>)
    requires c.Ok() && c.size > 0 && t < threads && EachRoundFair(c, RunLogged(c, threads, ls), rounds)
    requires var th := Run(Unbounded, c, threads, ls).threads[t]; th.Holds(side) && hi == th.lo + th.n
    requires |rounds| >= WorkBefore(c, Run(Unbounded, c, threads, ls).threads, side, hi)
    ensures AfterRounds(c, RunLogged(c, threads, ls), rounds).s.Own(side).tail >= hi
  {
    ReachableInv(c, threads, ls);
    HolderBelowHead(c, RunLogged(c, threads, ls), t);
    FairReaches(c, RunLogged(c, threads, ls), rounds, side, hi);
  }
}
