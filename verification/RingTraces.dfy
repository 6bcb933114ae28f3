/**
 Facts about whole runs of the ring protocol that look back in time: why a call
 was refused, and why a compare-and-set failed.
 */
module RingTraces {
  import opened QueueSpec
  import opened RingProtocol
  import opened RingInvariant
  import opened RingSteps
  import opened RingCalls

  /** The state after the first j labels of a schedule. */
  function StateAt(c: Config, threads: nat, ls: seq<Label>, j: nat): (s: State)
    requires c.size > 0 && c.Lap() > 0 && j <= |ls|
    ensures |s.slots| == c.Lap() && |s.threads| == threads
  {
    Run(Unbounded, c, threads, ls[..j])
  }

  lemma StateStep(c: Config, threads: nat, ls: seq<Label>, j: nat)
    requires c.size > 0 && c.Lap() > 0 && j < |ls|
    ensures StateAt(c, threads, ls, j + 1) == Next(Unbounded, c, StateAt(c, threads, ls, j), ls[j])
  {
    assert ls[..j + 1][..j] == ls[..j];
  }

  lemma StateInv(c: Config, threads: nat, ls: seq<Label>, j: nat) returns (g: Logged)
    requires c.Ok() && c.size > 0 && j <= |ls|
    ensures g.s == StateAt(c, threads, ls, j) && Inv(c, g)
  {
    ReachableInv(c, threads, ls[..j]);
    g := RunLogged(c, threads, ls[..j]);
  }

  /** Only a thread's own instructions change its local state once its call has begun. */
  lemma OthersUntouched(c: Config, s: State, l: Label, t: nat)
    requires c.size > 0 && |s.slots| == c.Lap() > 0 && t < |s.threads| && l != Go(t)
    requires !Next(Unbounded, c, s, l).threads[t].LoadHead?
    ensures Next(Unbounded, c, s, l).threads[t] == s.threads[t]
  {
  }

  // ----- refusals are justified

  /** How many elements the side could really reserve at this instant. */
  function Available(c: Config, s: State, side: Side): int {
    Limit(c, s.prod, s.cons, side) - s.Own(side).head
  }

  /** The step at which a thread loaded the opposite tail, and nothing it did since. */
  predicate LoadedTailAt(c: Config, threads: nat, ls: seq<Label>, i: nat, j: nat, t: nat, req: Request, lo: int)
    requires c.size > 0 && c.Lap() > 0 && i < j <= |ls| && t < threads
  {
    && ls[i] == Go(t) && StateAt(c, threads, ls, i).threads[t] == LoadTail(req, lo)
    && forall m :: i < m < j ==> ls[m] != Go(t)
  }

  /** A thread about to test found its room when it loaded the opposite tail, from a head that may be stale by then. */
  lemma {:induction false} TestOrigin(c: Config, threads: nat, ls: seq<Label>, j: nat, t: nat) returns (i: nat)
    requires c.Ok() && c.size > 0 && j <= |ls| && t < threads && StateAt(c, threads, ls, j).threads[t].Test?
    ensures i < j
    ensures var th := StateAt(c, threads, ls, j).threads[t]; var s := StateAt(c, threads, ls, i);
      && LoadedTailAt(c, threads, ls, i, j, t, th.req, th.lo)
      && th.room == Limit(c, s.prod, s.cons, th.req.side) - th.lo
    ensures forall m :: i < m <= j ==> StateAt(c, threads, ls, m).threads[t] == StateAt(c, threads, ls, j).threads[t]
    decreases j
  {
    StartsIdle(c, threads, ls);
    StateStep(c, threads, ls, j - 1);
    if ls[j - 1] == Go(t) {
      i := j - 1;
      TestMade(c, StateAt(c, threads, ls, i), t);
    } else {
      OthersUntouched(c, StateAt(c, threads, ls, j - 1), ls[j - 1], t);
      i := TestOrigin(c, threads, ls, j - 1, t);
    }
  }

  lemma TestMade(c: Config, s: State, t: nat)
    requires c.size > 0 && |s.slots| == c.Lap() > 0 && t < |s.threads|
    requires Next(Unbounded, c, s, Go(t)).threads[t].Test?
    ensures var th := Next(Unbounded, c, s, Go(t)).threads[t];
      && s.threads[t] == LoadTail(th.req, th.lo)
      && th.room == Limit(c, s.prod, s.cons, th.req.side) - th.lo
  {
  }

  lemma StartsIdle(c: Config, threads: nat, ls: seq<Label>)
    requires c.size > 0 && c.Lap() > 0
    ensures forall t :: 0 <= t < threads ==> StateAt(c, threads, ls, 0).threads[t].Idle?
  {
  }

  /** Only the room test ends a call with nothing moved. */
  lemma NothingMoved(c: Config, threads: nat, ls: seq<Label>, j: nat, t: nat)
    requires c.Ok() && c.size > 0 && j < |ls| && ls[j] == Go(t) && t < threads
    requires !StateAt(c, threads, ls, j).threads[t].Done?
    requires StateAt(c, threads, ls, j + 1).threads[t].Done? && StateAt(c, threads, ls, j + 1).threads[t].n == 0
    ensures var th, th' := StateAt(c, threads, ls, j).threads[t], StateAt(c, threads, ls, j + 1).threads[t];
      && th.Test? && th.req == th'.req && th.lo == th'.lo
      && AfterTest(th.req, th.lo, th.room).Done?
  {
    StateStep(c, threads, ls, j);
    var g := StateInv(c, threads, ls, j);
    assert ThreadOk(c, g.s.prod, g.s.cons, g.s.slots, g.enqueued, g.s.threads[t]);
  }

  /** What a refusal says of the room: below the request for a fixed one, zero for a variable one. */
  lemma RefusedRoom(req: Request, lo: int, room: int)
    requires room >= 0 && AfterTest(req, lo, room).Done? && req.max > 0
    ensures room < req.max && (req.behavior == Variable ==> room == 0)
  {
  }

  /**
   Whenever a call returns with nothing moved, however often it has lost a race and started over: it is the call that
   the thread began at label b, with the request it began with, and unless that asks for nothing, then at the
   instant i at which this call last loaded the opposite tail the ring really could not serve it: fewer than the
   requested elements were available for a fixed request, none for a variable one.
   */
  lemma RefusalJustified(c: Config, threads: nat, ls: seq<Label>, j: nat, t: nat, req: Request)
    returns (b: nat, i: nat)
    requires c.Ok() && c.size > 0 && j < |ls| && ls[j] == Go(t) && t < threads
    requires !StateAt(c, threads, ls, j).threads[t].Done?
    requires var th := StateAt(c, threads, ls, j + 1).threads[t]; th.Done? && th.n == 0 && th.req == req
    ensures b < i < j && CallSince(Unbounded, c, threads, ls, b, j + 1, t, req)
    ensures LoadedTailAt(c, threads, ls, i, j, t, req, StateAt(c, threads, ls, j + 1).threads[t].lo)
    ensures var s := StateAt(c, threads, ls, i);
      req.max > 0 ==>
        && Available(c, s, req.side) < req.max
        && (req.behavior == Variable ==> Available(c, s, req.side) == 0)
  {
    NothingMoved(c, threads, ls, j, t);
    var th := StateAt(c, threads, ls, j).threads[t];
    b := CallOrigin(Unbounded, c, threads, ls, j + 1, t, req);
    i := TestOrigin(c, threads, ls, j, t);
    assert StateAt(c, threads, ls, b).threads[t].Idle?;
    RefusedAt(c, threads, ls, i, j, t, req);
  }

  lemma RefusedAt(c: Config, threads: nat, ls: seq<Label>, i: nat, j: nat, t: nat, req: Request)
    requires c.Ok() && c.size > 0 && i < j <= |ls| && t < threads && StateAt(c, threads, ls, j).threads[t].Test?
    requires var th := StateAt(c, threads, ls, j).threads[t]; var s := StateAt(c, threads, ls, i);
      && th.req == req && AfterTest(req, th.lo, th.room).Done?
      && LoadedTailAt(c, threads, ls, i, j, t, req, th.lo)
      && th.room == Limit(c, s.prod, s.cons, req.side) - th.lo
    ensures var s := StateAt(c, threads, ls, i);
      req.max > 0 ==>
        && Available(c, s, req.side) < req.max
        && (req.behavior == Variable ==> Available(c, s, req.side) == 0)
  {
    var th := StateAt(c, threads, ls, j).threads[t];
    LoadedBehind(c, threads, ls, i, t);
    var g := StateInv(c, threads, ls, j);
    assert ThreadOk(c, g.s.prod, g.s.cons, g.s.slots, g.enqueued, g.s.threads[t]);
    if req.max > 0 {
      RefusedRoom(req, th.lo, th.room);
    }
  }

  /** The loaded head is never ahead of the real one, and something can always be said to be available. */
  lemma LoadedBehind(c: Config, threads: nat, ls: seq<Label>, i: nat, t: nat)
    requires c.Ok() && c.size > 0 && i <= |ls| && t < threads && StateAt(c, threads, ls, i).threads[t].Loaded()
    ensures var s := StateAt(c, threads, ls, i); var th := s.threads[t];
      th.lo <= s.Own(th.req.side).head && Available(c, s, th.req.side) >= 0
  {
    var g := StateInv(c, threads, ls, i);
    assert ThreadOk(c, g.s.prod, g.s.cons, g.s.slots, g.enqueued, g.s.threads[t]);
  }

  /**
   A producer's free_entries is at most the capacity exactly when the consumer tail it loaded was not ahead of its
   old_head, and a consumer's entries exactly when the producer tail was at most capacity ahead. Either count can
   be larger, but only if the head had already moved on at that instant.
   */
  lemma RoomWithinCapacity(c: Config, threads: nat, ls: seq<Label>, j: nat, t: nat) returns (i: nat)
    requires c.Ok() && c.size > 0 && j <= |ls| && t < threads && StateAt(c, threads, ls, j).threads[t].Test?
    ensures i < j
    ensures var th := StateAt(c, threads, ls, j).threads[t]; var s := StateAt(c, threads, ls, i);
      && LoadedTailAt(c, threads, ls, i, j, t, th.req, th.lo)
      && (th.req.side == Producer ==> (th.room <= c.capacity <==> s.cons.tail <= th.lo))
      && (th.req.side == Consumer ==> (th.room <= c.capacity <==> s.prod.tail <= th.lo + c.capacity))
      && 0 <= th.room
      && (th.room > c.capacity ==> th.lo < s.Own(th.req.side).head)
  {
    i := TestOrigin(c, threads, ls, j, t);
    LoadedBehind(c, threads, ls, i, t);
    var before := StateInv(c, threads, ls, i);
    var after := StateInv(c, threads, ls, j);
    assert ThreadOk(c, after.s.prod, after.s.cons, after.s.slots, after.enqueued, after.s.threads[t]);
  }

  /** The room a successful commit relies on is still there: the new head stays within the opposite tail's limit. */
  lemma CommitHasRoom(c: Config, threads: nat, ls: seq<Label>, j: nat, t: nat)
    requires c.Ok() && c.size > 0 && j < |ls| && ls[j] == Go(t) && t < threads
    requires CommitSucceeds(c, StateAt(c, threads, ls, j), t)
    ensures var s := StateAt(c, threads, ls, j); var th := s.threads[t];
      0 < th.n <= Available(c, s, th.req.side) && th.lo == s.Own(th.req.side).head
  {
    var g := StateInv(c, threads, ls, j);
    CommitterKnows(c, g, t);
  }

  // ----- a failed compare-and-set means somebody else got through

  /** The step at which a thread loaded its own head; since then it has not tried to commit. */
  predicate LoadedHeadAt(c: Config, threads: nat, ls: seq<Label>, i: nat, j: nat, t: nat, side: Side, lo: int)
    requires c.size > 0 && c.Lap() > 0 && i < j <= |ls| && t < threads
  {
    && ls[i] == Go(t) && StateAt(c, threads, ls, i).threads[t].LoadHead?
    && StateAt(c, threads, ls, i).Own(side).head == lo
    && forall m :: i <= m < j && ls[m] == Go(t) ==> !StateAt(c, threads, ls, m).threads[t].Commit?
  }

  lemma {:induction false} LoadedOrigin(c: Config, threads: nat, ls: seq<Label>, j: nat, t: nat) returns (i: nat)
    requires c.Ok() && c.size > 0 && j <= |ls| && t < threads && StateAt(c, threads, ls, j).threads[t].Loaded()
    ensures i < j
    ensures var th := StateAt(c, threads, ls, j).threads[t];
            LoadedHeadAt(c, threads, ls, i, j, t, th.req.side, th.lo)
    decreases j
  {
    StartsIdle(c, threads, ls);
    StateStep(c, threads, ls, j - 1);
    var before := StateAt(c, threads, ls, j - 1);
    if ls[j - 1] != Go(t) {
      OthersUntouched(c, before, ls[j - 1], t);
      i := LoadedOrigin(c, threads, ls, j - 1, t);
    } else {
      LoadedMade(c, before, t);
      if before.threads[t].LoadHead? {
        i := j - 1;
      } else {
        i := LoadedOrigin(c, threads, ls, j - 1, t);
      }
    }
  }

  lemma LoadedMade(c: Config, s: State, t: nat)
    requires c.size > 0 && |s.slots| == c.Lap() > 0 && t < |s.threads|
    requires Next(Unbounded, c, s, Go(t)).threads[t].Loaded()
    ensures var th := Next(Unbounded, c, s, Go(t)).threads[t];
      || (s.threads[t] == LoadHead(th.req) && th.lo == s.Own(th.req.side).head)
      || (s.threads[t].Loaded() && !s.threads[t].Commit? && s.threads[t].req == th.req && s.threads[t].lo == th.lo)
  {
  }

  /** Only a successful commit moves a head. */
  lemma HeadMover(c: Config, s: State, l: Label, side: Side)
    requires c.size > 0 && |s.slots| == c.Lap() > 0
    requires Next(Unbounded, c, s, l).Own(side).head != s.Own(side).head
    ensures l.Go? && l.t < |s.threads| && CommitSucceeds(c, s, l.t) && s.threads[l.t].req.side == side
  {
  }

  lemma {:induction false} HeadMoved(c: Config, threads: nat, ls: seq<Label>, i: nat, j: nat, side: Side)
      returns (m: nat)
    requires c.size > 0 && c.Lap() > 0 && i <= j <= |ls|
    requires StateAt(c, threads, ls, i).Own(side).head != StateAt(c, threads, ls, j).Own(side).head
    ensures i <= m < j && ls[m].Go? && ls[m].t < threads
    ensures var s := StateAt(c, threads, ls, m); CommitSucceeds(c, s, ls[m].t) && s.threads[ls[m].t].req.side == side
    decreases j - i
  {
    StateStep(c, threads, ls, j - 1);
    if StateAt(c, threads, ls, j - 1).Own(side).head != StateAt(c, threads, ls, j).Own(side).head {
      m := j - 1;
      HeadMover(c, StateAt(c, threads, ls, m), ls[m], side);
    } else {
      m := HeadMoved(c, threads, ls, i, j - 1, side);
    }
  }

  /**
   Lock freedom of the reservation: when a thread's compare-and-set fails, some other thread's reservation on
   the same side succeeded after this thread loaded the head.
   */
  lemma FailureMeansProgress(c: Config, threads: nat, ls: seq<Label>, j: nat, t: nat) returns (i: nat, m: nat)
    requires c.Ok() && c.size > 0 && j < |ls| && ls[j] == Go(t) && t < threads
    requires StateAt(c, threads, ls, j).threads[t].Commit? && !CommitSucceeds(c, StateAt(c, threads, ls, j), t)
    ensures i < m < j
    ensures var th := StateAt(c, threads, ls, j).threads[t]; var s := StateAt(c, threads, ls, m);
      && LoadedHeadAt(c, threads, ls, i, j, t, th.req.side, th.lo)
      && ls[m].Go? && ls[m].t != t && ls[m].t < threads
      && CommitSucceeds(c, s, ls[m].t) && s.threads[ls[m].t].req.side == th.req.side
  {
    var th := StateAt(c, threads, ls, j).threads[t];
    i := LoadedOrigin(c, threads, ls, j, t);
    m := HeadMoved(c, threads, ls, i, j, th.req.side);
  }
}
