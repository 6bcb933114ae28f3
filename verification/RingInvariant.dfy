/**
 What every step of the ring protocol keeps, on counters that never wrap.
 Positions of words are element positions times the words per element.
 */
module RingInvariant {
  import opened Bits
  import opened QueueSpec
  import opened RingCopy
  import opened RingProtocol

  /** The word position of an element position. */
  function At(c: Config, x: int): int {
    x * c.scale
  }

  /** The slot of a word position. */
  function SlotOf(c: Config, p: int): (j: nat)
    requires c.Lap() > 0
    ensures j < c.Lap()
  {
    p % c.Lap()
  }

  // ----- the invariant, part by part

  ghost predicate Counters(c: Config, prod: HeadTail, cons: HeadTail) {
    0 <= cons.tail <= cons.head <= prod.tail <= prod.head <= cons.tail + c.capacity
  }

  /** The unpublished reservations of a side, in queue order, tile [tail, head): no gap, no overlap. */
  ghost predicate Tiles(threads: seq<Thread>, ht: HeadTail, side: Side, q: seq<nat>) {
    Holders(threads, side, q) && InOrder(threads, ht, q)
  }

  /** The queue lists exactly the threads that hold a reservation on the side. */
  ghost predicate Holders(threads: seq<Thread>, side: Side, q: seq<nat>) {
    && (forall i :: 0 <= i < |q| ==> q[i] < |threads| && threads[q[i]].Holds(side))
    && (forall t :: 0 <= t < |threads| && threads[t].Holds(side) ==> t in q)
  }

  predicate Flying(threads: seq<Thread>, q: seq<nat>) {
    forall i :: 0 <= i < |q| ==> q[i] < |threads| && threads[q[i]].InFlight()
  }

  /** Each reservation starts where the one before it ends, from tail to head. */
  ghost predicate InOrder(threads: seq<Thread>, ht: HeadTail, q: seq<nat>)
    requires Flying(threads, q)
  {
    Within(threads, ht, q) && Apart(threads, q) && Linked(threads, ht, q)
  }

  ghost predicate Within(threads: seq<Thread>, ht: HeadTail, q: seq<nat>)
    requires Flying(threads, q)
  {
    forall i :: 0 <= i < |q| ==> ht.tail <= Lo(threads, q[i]) < Hi(threads, q[i]) <= ht.head
  }

  ghost predicate Apart(threads: seq<Thread>, q: seq<nat>)
    requires Flying(threads, q)
  {
    forall i, j :: 0 <= i < j < |q| ==> Hi(threads, q[i]) <= Lo(threads, q[j])
  }

  ghost predicate Linked(threads: seq<Thread>, ht: HeadTail, q: seq<nat>)
    requires Flying(threads, q)
  {
    && (forall i {:trigger Hi(threads, q[i])} :: 0 <= i < |q| - 1 ==> Hi(threads, q[i]) == Lo(threads, q[i + 1]))
    && (if q == [] then ht.tail == ht.head
        else Lo(threads, q[0]) == ht.tail && Hi(threads, q[|q| - 1]) == ht.head)
  }

  function Lo(threads: seq<Thread>, t: nat): int
    requires t < |threads| && threads[t].InFlight()
  {
    threads[t].lo
  }

  function Hi(threads: seq<Thread>, t: nat): int
    requires t < |threads| && threads[t].InFlight()
  {
    threads[t].lo + threads[t].n
  }

  /** A single-threaded side has at most one call under way. */
  ghost predicate Alone(c: Config, threads: seq<Thread>, side: Side) {
    c.Single(side) ==>
      forall t, u :: 0 <= t < |threads| && 0 <= u < |threads| && threads[t].On(side) && threads[u].On(side) ==> t == u
  }

  ghost predicate AllAlone(c: Config, threads: seq<Thread>) {
    forall side: Side :: Alone(c, threads, side)
  }

  /** What a thread knows after loading the head, and after loading the opposite tail. */
  ghost predicate LoadedOk(c: Config, head: int, limit: int, th: Thread)
    requires th.Loaded()
  {
    && 0 <= th.lo <= head && th.lo <= limit
    && (c.Single(th.req.side) ==> th.lo == head)
    && (!th.LoadTail? ==> 0 <= th.room && th.lo + th.room <= limit)
    && (th.Commit? ==> th.n > 0 && th.n == Granted(th.req.max, th.room, th.req.behavior))
  }

  /** What a thread with a reservation knows about the words it has moved. */
  ghost predicate FlightOk(c: Config, tail: int, slots: seq<Word>, enqueued: seq<Word>, th: Thread)
    requires th.InFlight() && |slots| == c.Lap() > 0
  {
    && 0 <= th.lo && 0 < th.n && 0 <= th.room && th.n == Granted(th.req.max, th.room, th.req.behavior)
    && |th.moved| <= At(c, th.n)
    && (!th.Copy? ==> |th.moved| == At(c, th.n))
    && (th.Publish? ==> th.lo == tail)
    && Segment(enqueued, At(c, th.lo), th.moved)
    && (th.req.side == Producer ==>
         && Segment(enqueued, At(c, th.lo), Supplied(c, th))
         && SlotsHold(c, slots, enqueued, At(c, th.lo), At(c, th.lo) + |th.moved|))
  }

  /** The words a producer with a reservation brings to it. */
  ghost function Supplied(c: Config, th: Thread): seq<Word>
    requires th.InFlight()
  {
    ObjWords(th.req, At(c, th.n))
  }

  /** The log holds these words from this position on. */
  ghost predicate Segment(log: seq<Word>, from: int, words: seq<Word>) {
    0 <= from && from + |words| <= |log| && log[from..from + |words|] == words
  }

  /** The slots of these word positions hold what the log says. */
  ghost predicate SlotsHold(c: Config, slots: seq<Word>, log: seq<Word>, from: int, to: int)
    requires |slots| == c.Lap() > 0
  {
    forall p :: from <= p < to && 0 <= p < |log| ==> slots[SlotOf(c, p)] == log[p]
  }

  function Pick(prod: HeadTail, cons: HeadTail, side: Side): HeadTail {
    if side == Producer then prod else cons
  }

  ghost predicate ThreadOk(c: Config, prod: HeadTail, cons: HeadTail, slots: seq<Word>, log: seq<Word>, th: Thread)
    requires |slots| == c.Lap() > 0
  {
    && (!th.Idle? ==> RequestOk(c, th.req))
    && (th.Loaded() ==>
          LoadedOk(c, Pick(prod, cons, th.req.side).head, Limit(c, prod, cons, th.req.side), th))
    && (th.InFlight() ==> FlightOk(c, Pick(prod, cons, th.req.side).tail, slots, log, th))
    && (th.Done? ==> DoneOk(c, log, th))
  }

  /** What a call returns: the granted count, and the words logged at the position it reserved. */
  ghost predicate DoneOk(c: Config, log: seq<Word>, th: Thread)
    requires th.Done?
  {
    && 0 <= th.room && th.n == Granted(th.req.max, th.room, th.req.behavior)
    && |th.moved| == At(c, th.n)
    && (th.n > 0 ==> Segment(log, At(c, th.lo), th.moved))
  }

  /** How far the head of a side may go. */
  function Limit(c: Config, prod: HeadTail, cons: HeadTail, side: Side): int {
    c.Bias(side) + Pick(prod, cons, side.Other()).tail
  }

  ghost predicate ThreadsOk(c: Config, prod: HeadTail, cons: HeadTail, slots: seq<Word>, log: seq<Word>,
      threads: seq<Thread>)
    requires |slots| == c.Lap() > 0
  {
    forall t :: 0 <= t < |threads| ==> ThreadOk(c, prod, cons, slots, log, threads[t])
  }

  /** The logs have exactly the words the counters say, and what came out is a prefix of what went in. */
  ghost predicate LogsOk(c: Config, prodHead: int, consTail: int, enqueued: seq<Word>, dequeued: seq<Word>) {
    |enqueued| == At(c, prodHead) && |dequeued| == At(c, consTail) && dequeued <= enqueued
  }

  /** Reservations tile both sides. */
  ghost predicate QueuesOk(g: Logged) {
    forall side: Side :: Tiles(g.s.threads, g.s.Own(side), side, g.Queue(side))
  }

  ghost predicate Inv(c: Config, g: Logged) {
    && c.Ok() && |g.s.slots| == c.Lap()
    && Counters(c, g.s.prod, g.s.cons)
    && QueuesOk(g) && AllAlone(c, g.s.threads)
    && ThreadsOk(c, g.s.prod, g.s.cons, g.s.slots, g.enqueued, g.s.threads)
    // every word published and not yet released by the consumers is still in its slot
    && SlotsHold(c, g.s.slots, g.enqueued, At(c, g.s.cons.tail), At(c, g.s.prod.tail))
    && LogsOk(c, g.s.prod.head, g.s.cons.tail, g.enqueued, g.dequeued)
  }

  // ----- word positions

  lemma AtOrder(c: Config, x: int, y: int)
    requires c.scale > 0
    ensures x <= y <==> At(c, x) <= At(c, y)
    ensures x < y ==> At(c, x) + c.scale <= At(c, y)
  {
    MulOrder(c.scale, x, y);
    if x < y {
      MulGap(c.scale, x, y);
    }
  }

  lemma AtAdds(c: Config, x: int, y: int)
    ensures At(c, x + y) == At(c, x) + At(c, y)
  {
  }

  lemma CopySlotAt(c: Config, lo: nat, k: nat, p: int)
    requires c.size > 0 && c.Lap() > 0 && p == At(c, lo) + k
    ensures CopySlot(c, lo, k) == SlotOf(c, p)
  {
    CopySlotIsSlotOf(c, lo, k);
  }

  /** The code's masked, wrapping slot index is the word position modulo the lap. */
  lemma CopySlotIsSlotOf(c: Config, lo: nat, k: nat)
    requires c.size > 0 && c.Lap() > 0
    ensures At(c, lo) >= 0
    ensures CopySlot(c, lo, k) == SlotOf(c, At(c, lo) + k)
  {
    var laps := lo / c.size;
    assert lo == c.size * laps + lo % c.size;
    assert At(c, lo) == c.Lap() * laps + (lo % c.size) * c.scale by {
      ScaleOut(c.size, laps, lo % c.size, c.scale);
    }
    MulNonNegative(c.scale, lo % c.size);
    MulNonNegative(c.scale, lo);
    var first := (lo % c.size) * c.scale;
    var q := (first + k) / c.Lap();
    assert first + k == c.Lap() * q + (first + k) % c.Lap();
    MulSub(c.Lap(), q, -laps);
    DivModUnique(At(c, lo) + k, c.Lap(), laps + q, (first + k) % c.Lap());
  }

  /** Word positions of one window of capacity elements never share a slot. */
  lemma WindowSlots(c: Config, tail: int, p: int, q: int)
    requires c.Ok() && At(c, tail) <= p < q < At(c, tail + c.capacity)
    ensures SlotOf(c, p) != SlotOf(c, q)
  {
    AtAdds(c, tail, c.capacity);
    MulOrder(c.scale, c.capacity, c.size);
    SlotsDiffer(p, q, c.Lap());
  }

  // ----- where a reservation lies

  lemma HolderBounds(threads: seq<Thread>, ht: HeadTail, side: Side, q: seq<nat>, t: nat)
    requires Tiles(threads, ht, side, q) && t < |threads| && threads[t].Holds(side)
    ensures ht.tail <= Lo(threads, t) < Hi(threads, t) <= ht.head
  {
    var i :| 0 <= i < |q| && q[i] == t;
  }

  /** Two reservations of a side never overlap. */
  lemma HoldersApart(threads: seq<Thread>, ht: HeadTail, side: Side, q: seq<nat>, t: nat, u: nat)
    requires Tiles(threads, ht, side, q) && t != u
    requires t < |threads| && threads[t].Holds(side) && u < |threads| && threads[u].Holds(side)
    ensures Hi(threads, t) <= Lo(threads, u) || Hi(threads, u) <= Lo(threads, t)
  {
    var i :| 0 <= i < |q| && q[i] == t;
    var j :| 0 <= j < |q| && q[j] == u;
    if i < j {
    } else {
      assert j < i;
    }
  }

  lemma LaterAfterTail(threads: seq<Thread>, ht: HeadTail, side: Side, q: seq<nat>)
    requires Tiles(threads, ht, side, q)
    ensures forall i :: 0 < i < |q| ==> ht.tail < Lo(threads, q[i])
  {
    forall i | 0 < i < |q| ensures ht.tail < Lo(threads, q[i]) {
      assert Hi(threads, q[0]) <= Lo(threads, q[i]);
    }
  }

  /** The reservation that starts at the tail is the oldest one. */
  lemma OldestAtTail(threads: seq<Thread>, ht: HeadTail, side: Side, q: seq<nat>, t: nat)
    requires Tiles(threads, ht, side, q) && t < |threads| && threads[t].Holds(side)
    requires Lo(threads, t) == ht.tail
    ensures q != [] && q[0] == t
  {
    var i :| 0 <= i < |q| && q[i] == t;
    LaterAfterTail(threads, ht, side, q);
  }

  /** A reservation on a single-threaded side is the only one, so it starts at the tail. */
  lemma AloneAtTail(c: Config, threads: seq<Thread>, ht: HeadTail, side: Side, q: seq<nat>, t: nat)
    requires Tiles(threads, ht, side, q) && Alone(c, threads, side) && c.Single(side)
    requires t < |threads| && threads[t].Holds(side)
    ensures Lo(threads, t) == ht.tail
  {
    var i :| 0 <= i < |q| && q[i] == t;
    assert threads[q[0]].On(side);
  }

  /** Tiling depends only on who holds what. */
  lemma TilesFrame(threads: seq<Thread>, threads': seq<Thread>, ht: HeadTail, side: Side, q: seq<nat>)
    requires Tiles(threads, ht, side, q) && |threads'| == |threads|
    requires forall t :: 0 <= t < |threads| ==> (threads[t].Holds(side) <==> threads'[t].Holds(side))
    requires forall t :: 0 <= t < |threads| && threads[t].Holds(side) ==>
               threads'[t].Holds(side) && Lo(threads', t) == Lo(threads, t) && Hi(threads', t) == Hi(threads, t)
    ensures Tiles(threads', ht, side, q)
  {
    forall i | 0 <= i < |q|
      ensures q[i] < |threads'| && threads'[q[i]].Holds(side)
      ensures Lo(threads', q[i]) == Lo(threads, q[i]) && Hi(threads', q[i]) == Hi(threads, q[i])
    {
    }
  }
}
