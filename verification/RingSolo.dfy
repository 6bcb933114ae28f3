/**
 One call of the protocol machine that nobody interrupts: it ends, and does to counters, slots and object table
 what the enqueue and dequeue methods of the ring object do.
 */
module RingSolo {
  import opened Bits
  import opened QueueSpec
  import opened RingCopy
  import opened RingProtocol

  /** The state after thread t executes k instructions in a row. */
  function GoTimes(c: Config, s: State, t: nat, k: nat): (s': State)
    requires c.size > 0 && |s.slots| == c.Lap() > 0
    ensures |s'.slots| == |s.slots|
    decreases k
  {
    if k == 0 then s else GoTimes(c, Next(Unbounded, c, s, Go(t)), t, k - 1)
  }

  lemma {:induction false} GoTimesAdd(c: Config, s: State, t: nat, j: nat, k: nat)
    requires c.size > 0 && |s.slots| == c.Lap() > 0
    ensures GoTimes(c, s, t, j + k) == GoTimes(c, GoTimes(c, s, t, j), t, k)
    decreases j
  {
    if j == 0 {
    } else {
      GoTimesAdd(c, Next(Unbounded, c, s, Go(t)), t, j - 1, k);
    }
  }

  // ----- the copy

  /** The word the copy of a reservation at lo starts from. */
  function Start(c: Config, lo: int): nat
    requires c.size > 0
  {
    MulNonNegative(c.scale, lo % c.size);
    (lo % c.size) * c.scale
  }

  /** The slots after m words of the copy: the simple loop for an enqueue, as they were for a dequeue. */
  ghost function SlotsAfter(c: Config, slots: seq<Word>, req: Request, lo: int, m: nat): (r: seq<Word>)
    requires c.size > 0 && |slots| == c.Lap() > 0
    ensures |r| == |slots|
  {
    if req.side == Producer then SimpleLoop(slots, c.Lap(), Start(c, lo), ObjWords(req, m)) else slots
  }

  /** The words moved after m words of the copy. */
  ghost function MovedAfter(c: Config, slots: seq<Word>, req: Request, lo: int, m: nat): (r: seq<Word>)
    requires c.size > 0 && |slots| == c.Lap() > 0
    ensures |r| == m
  {
    if req.side == Producer then ObjWords(req, m) else Reading(slots, c.Lap(), Start(c, lo), m)
  }

  /** A thread's reservation: its request, position, room and number of elements. */
  datatype Reservation = Reservation(req: Request, lo: int, room: int, n: int)

  ghost function CopyingAt(c: Config, s: State, t: nat, r: Reservation, m: nat): (s': State)
    requires c.size > 0 && |s.slots| == c.Lap() > 0 && t < |s.threads|
    ensures |s'.slots| == |s.slots|
  {
    var th := Copy(r.req, r.lo, r.room, r.n, MovedAfter(c, s.slots, r.req, r.lo, m));
    s.(slots := SlotsAfter(c, s.slots, r.req, r.lo, m), threads := s.threads[t := th])
  }

  lemma ObjWordsSnoc(req: Request, m: nat)
    ensures ObjWords(req, m + 1) == ObjWords(req, m) + [ObjWord(req, m)]
  {
  }

  /** One step of the simple loop per instruction. */
  lemma SlotsSnoc(c: Config, slots: seq<Word>, req: Request, lo: int, m: nat)
    requires c.size > 0 && |slots| == c.Lap() > 0 && req.side == Producer
    ensures SlotsAfter(c, slots, req, lo, m + 1)
         == SlotsAfter(c, slots, req, lo, m)[CopySlot(c, lo, m) := ObjWord(req, m)]
  {
    ObjWordsSnoc(req, m);
    assert ObjWords(req, m + 1)[..m] == ObjWords(req, m);
  }

  lemma MovedSnoc(c: Config, slots: seq<Word>, req: Request, lo: int, m: nat)
    requires c.size > 0 && |slots| == c.Lap() > 0
    ensures MovedAfter(c, slots, req, lo, m + 1) == MovedAfter(c, slots, req, lo, m)
            + [if req.side == Producer then ObjWord(req, m) else slots[CopySlot(c, lo, m)]]
  {
    if req.side == Producer {
      ObjWordsSnoc(req, m);
    } else {
      ReadingSnoc(slots, c.Lap(), Start(c, lo), m);
    }
  }

  lemma CopyOne(c: Config, s: State, t: nat, r: Reservation, m: nat)
    requires c.size > 0 && |s.slots| == c.Lap() > 0 && t < |s.threads| && m < r.n * c.scale
    ensures Next(Unbounded, c, CopyingAt(c, s, t, r, m), Go(t)) == CopyingAt(c, s, t, r, m + 1)
  {
    MovedSnoc(c, s.slots, r.req, r.lo, m);
    if r.req.side == Producer {
      SlotsSnoc(c, s.slots, r.req, r.lo, m);
    }
  }

  lemma {:induction false} CopyAll(c: Config, s: State, t: nat, r: Reservation, m: nat, total: nat)
    requires c.size > 0 && |s.slots| == c.Lap() > 0 && t < |s.threads| && m <= total == r.n * c.scale
    ensures GoTimes(c, CopyingAt(c, s, t, r, m), t, total - m) == CopyingAt(c, s, t, r, total)
    decreases total - m
  {
    if m == total {
    } else {
      CopyOne(c, s, t, r, m);
      CopyAll(c, s, t, r, m + 1, total);
    }
  }

  // ----- before and after the copy

  /** Calling, loading both counters and testing. */
  lemma TestPart(c: Config, s: State, t: nat, req: Request, room: int)
    requires c.size > 0 && |s.slots| == c.Lap() > 0 && t < |s.threads| && s.threads[t].Idle? && MayBegin(c, s, req)
    requires room == c.Bias(req.side) + s.Opposite(req.side).tail - s.Own(req.side).head && room >= 0
    ensures GoTimes(c, Next(Unbounded, c, s, Begin(t, req)), t, 3)
         == s.WithThread(t, AfterTest(req, s.Own(req.side).head, room))
  {
    var lo := s.Own(req.side).head;
    var s0 := s.WithThread(t, LoadHead(req));
    var s1 := s.WithThread(t, LoadTail(req, lo));
    var s2 := s.WithThread(t, Test(req, lo, room));
    assert Next(Unbounded, c, s0, Go(t)) == s1;
    assert Next(Unbounded, c, s1, Go(t)) == s2;
    assert Next(Unbounded, c, s2, Go(t)) == s.WithThread(t, AfterTest(req, lo, room));
    assert GoTimes(c, s2, t, 1) == s.WithThread(t, AfterTest(req, lo, room));
    assert GoTimes(c, s1, t, 2) == s.WithThread(t, AfterTest(req, lo, room));
  }

  /** The commit of a thread whose head is still the current one. */
  lemma CommitPart(c: Config, s: State, t: nat, r: Reservation)
    requires c.size > 0 && |s.slots| == c.Lap() > 0 && t < |s.threads| && r.lo == s.Own(r.req.side).head
    ensures Next(Unbounded, c, s.WithThread(t, Commit(r.req, r.lo, r.room, r.n)), Go(t))
         == CopyingAt(c, s.WithOwn(r.req.side, s.Own(r.req.side).(head := r.lo + r.n)), t, r, 0)
  {
  }

  /** The end of the copy, the turn to publish, and the new tail. */
  lemma PublishPart(c: Config, s: State, t: nat, r: Reservation, total: nat)
    requires c.size > 0 && |s.slots| == c.Lap() > 0 && t < |s.threads| && total == r.n * c.scale
    requires s.Own(r.req.side) == HeadTail(r.lo + r.n, r.lo)
    ensures GoTimes(c, CopyingAt(c, s, t, r, total), t, if c.Single(r.req.side) then 2 else 3)
         == Finished(c, s, t, r, total)
  {
    var s0 := CopyingAt(c, s, t, r, total);
    var moved := MovedAfter(c, s.slots, r.req, r.lo, total);
    var waiting := s0.WithThread(t, Wait(r.req, r.lo, r.room, r.n, moved));
    var last := s0.WithThread(t, Publish(r.req, r.lo, r.room, r.n, moved));
    assert Next(Unbounded, c, last, Go(t)) == Finished(c, s, t, r, total);
    assert GoTimes(c, last, t, 1) == Finished(c, s, t, r, total);
    if c.Single(r.req.side) {
      assert Next(Unbounded, c, s0, Go(t)) == last;
    } else {
      assert Next(Unbounded, c, s0, Go(t)) == waiting;
      assert Next(Unbounded, c, waiting, Go(t)) == last;
      assert GoTimes(c, waiting, t, 2) == Finished(c, s, t, r, total);
    }
  }

  /** All words copied, head and tail at the new position, the call returned. */
  ghost function Finished(c: Config, s: State, t: nat, r: Reservation, total: nat): State
    requires c.size > 0 && |s.slots| == c.Lap() > 0 && t < |s.threads|
  {
    var th := Done(r.req, r.lo, r.room, r.n, MovedAfter(c, s.slots, r.req, r.lo, total));
    s.WithOwn(r.req.side, HeadTail(r.lo + r.n, r.lo + r.n))
     .(slots := SlotsAfter(c, s.slots, r.req, r.lo, total), threads := s.threads[t := th])
  }

  // ----- the whole call

  /** What an uninterrupted call leaves behind. */
  ghost function AfterCall(c: Config, s: State, t: nat, req: Request, room: nat, words: nat): State
    requires c.size > 0 && |s.slots| == c.Lap() > 0 && t < |s.threads|
  {
    var n := Granted(req.max, room, req.behavior);
    if n == 0 then s.WithThread(t, Done(req, s.Own(req.side).head, room, 0, []))
    else Finished(c, s, t, Reservation(req, s.Own(req.side).head, room, n), words)
  }

  /**
   From any state in which nothing is in flight on its side, a call that runs on its own returns after finitely
   many instructions with the granted count; an enqueue has run the simple loop over the slots from the masked
   head, a dequeue has read them, head and tail are both advanced by the count, and nothing else has changed.
   */
  lemma SoloCall(c: Config, s: State, t: nat, req: Request, room: nat, words: nat) returns (k: nat)
    requires c.size > 0 && |s.slots| == c.Lap() > 0 && t < |s.threads| && s.threads[t].Idle? && MayBegin(c, s, req)
    requires s.Own(req.side).tail == s.Own(req.side).head
    requires room == c.Bias(req.side) + s.Opposite(req.side).tail - s.Own(req.side).head
    requires words == Granted(req.max, room, req.behavior) * c.scale
    ensures GoTimes(c, Next(Unbounded, c, s, Begin(t, req)), t, k) == AfterCall(c, s, t, req, room, words)
  {
    var begun := Next(Unbounded, c, s, Begin(t, req));
    var n, lo := Granted(req.max, room, req.behavior), s.Own(req.side).head;
    TestPart(c, s, t, req, room);
    if n == 0 {
      k := 3;
    } else {
      var r := Reservation(req, lo, room, n);
      var tested := s.WithThread(t, Commit(req, lo, room, n));
      var k' := Committed(c, s, t, r, words);
      GoTimesAdd(c, begun, t, 3, k');
      k := 3 + k';
    }
  }

  lemma Committed(c: Config, s: State, t: nat, r: Reservation, words: nat) returns (k: nat)
    requires c.size > 0 && |s.slots| == c.Lap() > 0 && t < |s.threads|
    requires s.Own(r.req.side) == HeadTail(r.lo, r.lo) && words == r.n * c.scale
    ensures GoTimes(c, s.WithThread(t, Commit(r.req, r.lo, r.room, r.n)), t, k) == Finished(c, s, t, r, words)
  {
    var tested := s.WithThread(t, Commit(r.req, r.lo, r.room, r.n));
    var taken := s.WithOwn(r.req.side, HeadTail(r.lo + r.n, r.lo));
    CommitPart(c, s, t, r);
    CopyAll(c, taken, t, r, 0, words);
    PublishPart(c, taken, t, r, words);
    var rest := if c.Single(r.req.side) then 2 else 3;
    GoTimesAdd(c, CopyingAt(c, taken, t, r, 0), t, words, rest);
    assert Finished(c, taken, t, r, words) == Finished(c, s, t, r, words);
    k := 1 + (words + rest);
  }

  /** The slots an uninterrupted enqueue leaves are those the unrolled copy of the ring object leaves. */
  lemma SoloSlots(c: Config, slots: seq<Word>, req: Request, lo: int, words: nat)
    requires c.size > 0 && |slots| == c.Lap() > 0 && req.side == Producer
    requires words <= |req.objs| && words <= c.Lap()
    ensures SlotsAfter(c, slots, req, lo, words) == Written(slots, c.Lap(), Start(c, lo), req.objs[..words])
  {
    assert ObjWords(req, words) == req.objs[..words];
    WrittenIsSimpleLoop(slots, c.Lap(), Start(c, lo), req.objs[..words]);
  }
}
