/** Safety of every run of the ring protocol, stated on the states its schedules reach. */
module RingSafety {
  import opened QueueSpec
  import opened RingCopy
  import opened RingProtocol
  import opened RingInvariant
  import opened RingSteps
  import opened RingCalls

  /** Heads and tails never cross, and producers never get more than capacity ahead of released slots. */
  lemma CountersInOrder(c: Config, threads: nat, ls: seq<Label>)
    requires c.Ok()
    ensures c.size > 0
    ensures var s := Run(Unbounded, c, threads, ls);
            0 <= s.cons.tail <= s.cons.head <= s.prod.tail <= s.prod.head <= s.cons.tail + c.capacity
  {
    ReachableInv(c, threads, ls);
  }

  // ----- reservations tile the gap between tail and head

  predicate Covers(threads: seq<Thread>, side: Side, t: nat, p: int) {
    t < |threads| && threads[t].Holds(side) && Lo(threads, t) <= p < Hi(threads, t)
  }

  /** In a queue of adjoining reservations every position belongs to one of them. */
  lemma {:induction false} QueueCovers(threads: seq<Thread>, ht: HeadTail, q: seq<nat>, p: int) returns (i: nat)
    requires Flying(threads, q) && Linked(threads, ht, q) && ht.tail <= p < ht.head
    ensures i < |q| && Lo(threads, q[i]) <= p < Hi(threads, q[i])
    decreases |q|
  {
    var last := |q| - 1;
    if Lo(threads, q[last]) <= p {
      i := last;
    } else {
      var q', ht' := q[..last], HeadTail(Lo(threads, q[last]), ht.tail);
      assert last > 0 ==> Hi(threads, q[last - 1]) == Lo(threads, q[last]);
      assert Linked(threads, ht', q') by {
        assert forall j :: 0 <= j < |q'| ==> q'[j] == q[j];
      }
      i := QueueCovers(threads, ht', q', p);
    }
  }

  predicate Between(ht: HeadTail, p: int) {
    ht.tail <= p < ht.head
  }

  lemma TilingIsPartition(threads: seq<Thread>, ht: HeadTail, side: Side, q: seq<nat>)
    requires Tiles(threads, ht, side, q)
    ensures forall p :: Between(ht, p) ==> exists t :: Covers(threads, side, t, p)
    ensures forall t, p :: Covers(threads, side, t, p) ==> Between(ht, p)
    ensures forall t, u, p :: Covers(threads, side, t, p) && Covers(threads, side, u, p) ==> t == u
  {
    forall p | Between(ht, p) ensures exists t :: Covers(threads, side, t, p) {
      var i := QueueCovers(threads, ht, q, p);
      assert Covers(threads, side, q[i], p);
    }
    forall t, p | Covers(threads, side, t, p) ensures Between(ht, p) {
      HolderBounds(threads, ht, side, q, t);
    }
    forall t, u, p | Covers(threads, side, t, p) && Covers(threads, side, u, p) ensures t == u {
      if t != u {
        HoldersApart(threads, ht, side, q, t, u);
      }
    }
  }

  /**
   At every moment each position between tail and head of a side belongs to exactly one thread's
   reservation, and no reservation reaches outside.
   */
  lemma ReservationsTile(c: Config, threads: nat, ls: seq<Label>, side: Side)
    requires c.Ok() && c.size > 0
    ensures var s := Run(Unbounded, c, threads, ls);
      && (forall p :: Between(s.Own(side), p) ==> exists t :: Covers(s.threads, side, t, p))
      && (forall t, p :: Covers(s.threads, side, t, p) ==> Between(s.Own(side), p))
      && (forall t, u, p :: Covers(s.threads, side, t, p) && Covers(s.threads, side, u, p) ==> t == u)
  {
    var g := RunLogged(c, threads, ls);
    ReachableInv(c, threads, ls);
    assert QueuesOk(g);
    TilingIsPartition(g.s.threads, g.s.Own(side), side, g.Queue(side));
  }

  // ----- no two copies ever touch the same slot

  /** Word k of the reservation thread t is copying. */
  predicate InReservation(c: Config, s: State, t: nat, k: nat) {
    t < |s.threads| && s.threads[t].InFlight() && k < At(c, s.threads[t].n)
  }

  /**
   The slots of all words of all reservations in flight, of producers and consumers alike, are pairwise
   different: no interleaving lets two copies meet.
   */
  lemma SlotsExclusive(c: Config, threads: nat, ls: seq<Label>, t: nat, k: nat, u: nat, m: nat)
    requires c.Ok() && c.size > 0
    requires var s := Run(Unbounded, c, threads, ls);
             InReservation(c, s, t, k) && InReservation(c, s, u, m) && (t != u || k != m)
    ensures var s := Run(Unbounded, c, threads, ls);
            CopySlot(c, s.threads[t].lo, k) != CopySlot(c, s.threads[u].lo, m)
  {
    var g := RunLogged(c, threads, ls);
    ReachableInv(c, threads, ls);
    ReservedSlotsDiffer(c, g, t, k, u, m);
  }

  lemma ReservedSlotsDiffer(c: Config, g: Logged, t: nat, k: nat, u: nat, m: nat)
    requires c.Ok() && c.size > 0 && c.Lap() > 0 && Counters(c, g.s.prod, g.s.cons) && QueuesOk(g)
    requires InReservation(c, g.s, t, k) && InReservation(c, g.s, u, m) && (t != u || k != m)
    ensures CopySlot(c, g.s.threads[t].lo, k) != CopySlot(c, g.s.threads[u].lo, m)
  {
    var th, other, tail := g.s.threads[t], g.s.threads[u], g.s.cons.tail;
    var p, q := At(c, th.lo) + k, At(c, other.lo) + m;
    ReservationInWindow(c, g, t);
    ReservationInWindow(c, g, u);
    ReservedWord(c, th.lo, th.n, k, tail, tail + c.capacity);
    ReservedWord(c, other.lo, other.n, m, tail, tail + c.capacity);
    PositionsDiffer(c, g, t, k, u, m);
    CopySlotAt(c, th.lo, k, p);
    CopySlotAt(c, other.lo, m, q);
    WindowSlotsEither(c, tail, p, q);
  }

  lemma WindowSlotsEither(c: Config, tail: int, p: int, q: int)
    requires c.Ok() && p != q
    requires At(c, tail) <= p < At(c, tail + c.capacity) && At(c, tail) <= q < At(c, tail + c.capacity)
    ensures SlotOf(c, p) != SlotOf(c, q)
  {
    if p < q {
      WindowSlots(c, tail, p, q);
    } else {
      WindowSlots(c, tail, q, p);
    }
  }

  /** A reservation lies in the capacity after the consumer tail. */
  lemma ReservationInWindow(c: Config, g: Logged, t: nat)
    requires Counters(c, g.s.prod, g.s.cons) && QueuesOk(g)
    requires t < |g.s.threads| && g.s.threads[t].InFlight()
    ensures var th := g.s.threads[t]; 0 <= g.s.cons.tail <= th.lo && th.lo + th.n <= g.s.cons.tail + c.capacity
  {
    var side := g.s.threads[t].req.side;
    HolderBounds(g.s.threads, g.s.Own(side), side, g.Queue(side), t);
  }

  lemma ReservedWord(c: Config, lo: int, n: nat, k: nat, tail: int, limit: int)
    requires c.scale > 0 && k < At(c, n) && tail <= lo && lo + n <= limit
    ensures At(c, tail) <= At(c, lo) + k < At(c, limit)
  {
    AtOrder(c, tail, lo);
    AtAdds(c, lo, n);
    AtOrder(c, lo + n, limit);
  }

  lemma PositionsDiffer(c: Config, g: Logged, t: nat, k: nat, u: nat, m: nat)
    requires c.scale > 0 && Counters(c, g.s.prod, g.s.cons) && QueuesOk(g)
    requires InReservation(c, g.s, t, k) && InReservation(c, g.s, u, m) && (t != u || k != m)
    ensures At(c, g.s.threads[t].lo) + k != At(c, g.s.threads[u].lo) + m
  {
    var th, other := g.s.threads[t], g.s.threads[u];
    if t != u {
      HolderBounds(g.s.threads, g.s.Own(th.req.side), th.req.side, g.Queue(th.req.side), t);
      HolderBounds(g.s.threads, g.s.Own(other.req.side), other.req.side, g.Queue(other.req.side), u);
      if th.req.side == other.req.side {
        HoldersApart(g.s.threads, g.s.Own(th.req.side), th.req.side, g.Queue(th.req.side), t, u);
      }
      PiecesDiffer(c, th, k, other, m);
    }
  }

  lemma PiecesDiffer(c: Config, th: Thread, k: nat, other: Thread, m: nat)
    requires c.scale > 0 && th.InFlight() && other.InFlight() && k < At(c, th.n) && m < At(c, other.n)
    requires th.lo + th.n <= other.lo || other.lo + other.n <= th.lo
    ensures At(c, th.lo) + k != At(c, other.lo) + m
  {
    AtAdds(c, th.lo, th.n);
    AtAdds(c, other.lo, other.n);
    if th.lo + th.n <= other.lo {
      AtOrder(c, th.lo + th.n, other.lo);
    } else {
      AtOrder(c, other.lo + other.n, th.lo);
    }
  }

  // ----- first in, first out

  /**
   What consumers have published is exactly the oldest part of what producers have reserved, word for word
   and in order, whatever the interleaving; nothing is lost, repeated or torn.
   */
  lemma FirstInFirstOut(c: Config, threads: nat, ls: seq<Label>)
    requires c.Ok() && c.size > 0
    ensures var g := RunLogged(c, threads, ls);
      && 0 <= At(c, g.s.cons.tail) <= |g.enqueued| == At(c, g.s.prod.head)
      && g.dequeued == g.enqueued[..At(c, g.s.cons.tail)]
  {
    ReachableInv(c, threads, ls);
  }

  /**
   A thread in the middle of its copy holds a prefix of the words logged at its position; a producer's are its own.
   */
  lemma MovedWords(c: Config, threads: nat, ls: seq<Label>, t: nat)
    requires c.Ok() && c.size > 0 && t < threads && Run(Unbounded, c, threads, ls).threads[t].InFlight()
    ensures var g := RunLogged(c, threads, ls); var th := g.s.threads[t];
      && Segment(g.enqueued, At(c, th.lo), th.moved)
      && (th.req.side == Producer ==> th.moved <= th.req.objs)
      && (!th.Copy? ==> |th.moved| == At(c, th.n))
  {
    var g := RunLogged(c, threads, ls);
    ReachableInv(c, threads, ls);
    var th := g.s.threads[t];
    assert ThreadOk(c, g.s.prod, g.s.cons, g.s.slots, g.enqueued, th);
    if th.req.side == Producer {
      MovedIsSupplied(c, g.enqueued, th);
    }
  }

  lemma MovedIsSupplied(c: Config, log: seq<Word>, th: Thread)
    requires c.scale > 0 && th.InFlight() && RequestOk(c, th.req) && th.req.side == Producer && th.n <= th.req.max
    requires Segment(log, At(c, th.lo), th.moved) && Segment(log, At(c, th.lo), Supplied(c, th))
    requires |th.moved| <= At(c, th.n)
    ensures th.moved <= th.req.objs
  {
    AtOrder(c, th.n, th.req.max);
    forall k | 0 <= k < |th.moved| ensures th.moved[k] == th.req.objs[k] {
      assert th.moved[k] == log[At(c, th.lo) + k];
      assert Supplied(c, th)[k] == log[At(c, th.lo) + k];
    }
  }

  /** The words an enqueue has moved when it returns are the first of its own table. */
  lemma {:induction false} ReturnedTable(c: Config, threads: nat, ls: seq<Label>, t: nat)
    requires c.Ok() && c.size > 0 && t < threads
    requires var th := Run(Unbounded, c, threads, ls).threads[t]; th.Done? && th.req.side == Producer
    ensures var th := Run(Unbounded, c, threads, ls).threads[t]; th.moved <= th.req.objs
    decreases |ls|
  {
    if ls != [] {
      var before, l := ls[..|ls| - 1], ls[|ls| - 1];
      var s := Run(Unbounded, c, threads, before);
      DoneMade(c, s, l, t);
      if s.threads[t].Done? {
        ReturnedTable(c, threads, before, t);
      } else if s.threads[t].InFlight() {
        MovedWords(c, threads, before, t);
      }
    }
  }

  lemma DoneMade(c: Config, s: State, l: Label, t: nat)
    requires c.size > 0 && |s.slots| == c.Lap() > 0 && t < |s.threads| && Next(Unbounded, c, s, l).threads[t].Done?
    ensures var th, was := Next(Unbounded, c, s, l).threads[t], s.threads[t];
      || (was.Test? && th.moved == [])
      || ((was.Publish? || was.Done?) && th.moved == was.moved && th.req == was.req)
  {
  }

  /**
   A call that returns is the one its thread began at label b, with the request it began with: the count is the one
   granted to that request, the words are those logged at its position, and an enqueue's are the first of its table.
   */
  lemma ReturnedWords(c: Config, threads: nat, ls: seq<Label>, t: nat) returns (b: nat)
    requires c.Ok() && c.size > 0 && t < threads && Run(Unbounded, c, threads, ls).threads[t].Done?
    ensures b < |ls| && CallSince(Unbounded, c, threads, ls, b, |ls|, t, Run(Unbounded, c, threads, ls).threads[t].req)
    ensures var g := RunLogged(c, threads, ls); var th := g.s.threads[t];
      && th.room >= 0 && th.n == Granted(th.req.max, th.room, th.req.behavior)
      && |th.moved| == At(c, th.n)
      && (th.n > 0 ==> Segment(g.enqueued, At(c, th.lo), th.moved))
      && (th.req.side == Producer ==> th.moved <= th.req.objs)
  {
    ReachableInv(c, threads, ls);
    var g := RunLogged(c, threads, ls);
    assert ThreadOk(c, g.s.prod, g.s.cons, g.s.slots, g.enqueued, g.s.threads[t]);
    assert ls[..|ls|] == ls;
    b := CallOrigin(Unbounded, c, threads, ls, |ls|, t, g.s.threads[t].req);
    if g.s.threads[t].req.side == Producer {
      ReturnedTable(c, threads, ls, t);
    }
  }

  /** Once every reservation is published and consumed, everything that went in has come out. */
  lemma DrainedIsComplete(c: Config, threads: nat, ls: seq<Label>)
    requires c.Ok() && c.size > 0
    requires var s := Run(Unbounded, c, threads, ls); s.cons.tail == s.prod.head
    ensures var g := RunLogged(c, threads, ls); g.dequeued == g.enqueued
  {
    ReachableInv(c, threads, ls);
  }
}
