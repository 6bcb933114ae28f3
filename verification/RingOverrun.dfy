/**
 A reachable run of the 32-bit ring in which 2^32 elements pass by a producer asleep at its compare-and-set: it goes
 through on a full ring, reserves beyond the capacity and overwrites words that nobody has read.
 */
module RingOverrun {
  import opened Bits
  import opened QueueSpec
  import opened RingCopy
  import opened RingProtocol
  import opened RingInvariant
  import opened RingTraces
  import opened RingSolo
  import opened RingWords
  import opened RingStale

  // ----- the producer asleep at its commit

  function AtCommit(c: Config): Thread
    requires c.scale > 0
  {
    Commit(Full(c, Producer), 0, c.capacity, c.capacity)
  }

  lemma FallAsleepLate(c: Config) returns (ls: seq<Label>)
    requires Shared(c, Producer)
    ensures ExactRun(c, 3, ls) && Asleep(Run(Unbounded, c, 3, ls), 0, AtCommit(c))
  {
    var early := FallAsleep(c, Producer);
    var s := Run(Unbounded, c, 3, early);
    Tested(c, s);
    ls := GoMore(c, 3, early, 0, 2);
  }

  /** Loading the tail of an empty ring and testing. */
  lemma Tested(c: Config, s: State)
    requires Shared(c, Producer) && |s.slots| == c.Lap() && Asleep(s, 0, BeforeTail(c, Producer))
    ensures UpToDate(s, 0) && Asleep(GoTimes(c, s, 0, 2), 0, AtCommit(c))
  {
    var s1 := Next(Unbounded, c, s, Go(0));
    assert s1 == s.WithThread(0, Test(Full(c, Producer), 0, c.capacity));
    assert GoTimes(c, s1, 0, 1) == Next(Unbounded, c, s1, Go(0)) == s.WithThread(0, AtCommit(c));
  }

  // ----- the ring is filled behind its back

  /** A request for a ring full of ones. */
  function Ones(c: Config): (req: Request)
    requires c.scale > 0
  {
    MulNonNegative(c.scale, c.capacity);
    Request(Producer, c.capacity, Fixed, seq(c.capacity * c.scale, i => 1))
  }

  /** The state once thread 1 has filled the empty ring whose counters are all at this position. */
  ghost function Filled(c: Config, s: State, at: nat, words: nat): State
    requires c.size > 0 && c.scale > 0 && |s.slots| == c.Lap() > 0
  {
    s.(prod := HeadTail(at + c.capacity, at + c.capacity), slots := SlotsAfter(c, s.slots, Ones(c), at, words))
  }

  lemma FillRing(c: Config, ls: seq<Label>, s: State, at: nat, words: nat) returns (longer: seq<Label>)
    requires Shared(c, Producer) && ExactRun(c, 3, ls) && Run(Unbounded, c, 3, ls) == s && Asleep(s, at, AtCommit(c))
    requires words == c.capacity * c.scale
    ensures ExactRun(c, 3, longer) && Run(Unbounded, c, 3, longer) == Filled(c, s, at, words)
  {
    var req := Ones(c);
    OthersMayBegin(c, s, AtCommit(c), req);
    longer := CallMore(c, 3, ls, s, 1, req, c.capacity, words);
    var done := AfterCall(c, s, 1, req, c.capacity, words).WithThread(1, Idle);
    assert done.threads == s.threads;
    assert done == Filled(c, s, at, words);
  }

  // ----- it wakes up

  /** The 32-bit state in which the late commit has gone through, with nothing copied yet. */
  ghost function Overrun(c: Config, s: State): State {
    Low(s).(prod := HeadTail(c.capacity, 0))
  }

  function LateReservation(c: Config): Reservation
    requires c.scale > 0
  {
    Reservation(Full(c, Producer), 0, c.capacity, c.capacity)
  }

  lemma LateCommit(c: Config, s: State)
    requires Shared(c, Producer) && |s.slots| == c.Lap() && |s.threads| == 3 && s.threads[0] == AtCommit(c)
    requires s.prod == HeadTail(TWO_32, TWO_32)
    ensures Next(Unbounded, c, s, Go(0)).threads[0].LoadHead?
    ensures Next(Bits32, c, Low(s), Go(0)) == CopyingAt(c, Overrun(c, s), 0, LateReservation(c), 0)
  {
    assert Low(s).prod == HeadTail(0, 0) && Low(s).threads[0] == AtCommit(c);
  }

  lemma CopyBothWays(c: Config, s: State, t: nat)
    requires c.size > 0 && |s.slots| == c.Lap() > 0 && t < |s.threads| && s.threads[t].Copy?
    ensures Next(Bits32, c, s, Go(t)) == Next(Unbounded, c, s, Go(t))
  {
  }

  /** The copy of the 32-bit machine, word after word. */
  lemma {:induction false} CopyOn(c: Config, ls: seq<Label>, s: State, r: Reservation, m: nat)
    returns (more: seq<Label>)
    requires c.size > 0 && |s.slots| == c.Lap() > 0 && |s.threads| == 3 && m <= r.n * c.scale
    requires Run(Bits32, c, 3, ls) == CopyingAt(c, s, 0, r, 0)
    ensures Run(Bits32, c, 3, ls + more) == CopyingAt(c, s, 0, r, m)
    ensures forall i :: 0 <= i < |more| ==> more[i] == Go(0)
    decreases m
  {
    if m == 0 {
      more := [];
      assert ls + [] == ls;
    } else {
      var k := m - 1;
      var part := CopyOn(c, ls, s, r, k);
      CopyBothWays(c, CopyingAt(c, s, 0, r, k), 0);
      CopyOne(c, s, 0, r, k);
      RunSnoc(Bits32, c, 3, ls + part, Go(0));
      more := part + [Go(0)];
      assert ls + more == (ls + part) + [Go(0)];
    }
  }

  // ----- what it overwrites

  /** A slot after an enqueue copy that does not wrap. */
  lemma SlotAfter(c: Config, slots: seq<Word>, req: Request, lo: int, words: nat, first: nat, j: nat)
    requires c.size > 0 && |slots| == c.Lap() && req.side == Producer && |req.objs| == words && j < c.Lap()
    requires first == Start(c, lo) && first + words <= c.Lap()
    ensures SlotsAfter(c, slots, req, lo, words)[j]
         == if first <= j < first + words then req.objs[j - first] else slots[j]
  {
    SoloSlots(c, slots, req, lo, words);
    assert req.objs[..words] == req.objs;
    OffsetIs(j, first, c.Lap());
  }

  lemma OffsetIs(j: nat, start: nat, size: nat)
    requires j < size && start <= size
    ensures Offset(j, start, size) == if j >= start then j - start else j - start + size
  {
    DivModUnique(j - start, size, if j >= start then 0 else -1, if j >= start then j - start else j - start + size);
  }

  /** The position 2^32 - capacity is capacity elements before the end of a lap. */
  lemma LastElements(c: Config, at: nat)
    requires c.Ok() && c.size > 0 && c.capacity > 0 && at + c.capacity == TWO_32
    ensures at % c.size == c.size - c.capacity
  {
    var q := Pow2Divides32(c.size);
    MulSub(c.size, q, 1);
    DivModUnique(at, c.size, q - 1, c.size - c.capacity);
  }

  /** The words of the last capacity elements of a lap fill it to the end. */
  lemma LastWords(size: int, capacity: int, scale: int)
    ensures (size - capacity) * scale + capacity * scale == size * scale
    ensures (2 * capacity - size) * scale == capacity * scale - (size - capacity) * scale
  {
  }

  /** The slot of unread word k: before the late copy it holds 1, after it 0 if the copy has reached it. */
  lemma Overwritten(c: Config, slots: seq<Word>, at: nat, words: nat, k: nat)
    requires Shared(c, Producer) && |slots| == c.Lap() && at + c.capacity == TWO_32
    requires words == c.capacity * c.scale && k < words
    ensures var filled := SlotsAfter(c, slots, Ones(c), at, words);
      && filled[CopySlot(c, at, k)] == 1
      && SlotsAfter(c, filled, Full(c, Producer), 0, words)[CopySlot(c, at, k)]
           == if k < (2 * c.capacity - c.size) * c.scale then 0 else 1
  {
    var filled := SlotsAfter(c, slots, Ones(c), at, words);
    var first := Start(c, at);
    LastElements(c, at);
    LastWords(c.size, c.capacity, c.scale);
    SlotOnce(first + k, c.Lap());
    SlotAfter(c, slots, Ones(c), at, words, first, first + k);
    SlotAfter(c, filled, Full(c, Producer), 0, words, 0, first + k);
  }

  /** A full ring of unread ones, and the producer still at its commit. */
  ghost predicate FullOfOnes(c: Config, s: State, at: nat, words: nat)
    requires c.size > 0 && |s.slots| == c.Lap() > 0 && c.scale > 0
  {
    && s.prod == HeadTail(TWO_32, TWO_32) && s.cons == HeadTail(at, at)
    && |s.threads| == 3 && s.threads[0] == AtCommit(c)
    && forall k :: 0 <= k < words ==> s.slots[CopySlot(c, at, k)] == 1
  }

  /** More than the capacity reserved, and the oldest unread elements gone. */
  ghost predicate OverrunOnes(c: Config, s: State, at: nat, words: nat)
    requires c.size > 0 && |s.slots| == c.Lap() > 0
  {
    && s.cons == HeadTail(at, at) && Word32(s.prod.head - s.cons.tail) == 2 * c.capacity
    && forall k :: 0 <= k < words ==>
         s.slots[CopySlot(c, at, k)] == if k < (2 * c.capacity - c.size) * c.scale then 0 else 1
  }

  lemma FilledIs(c: Config, s: State, at: nat, words: nat)
    requires Shared(c, Producer) && |s.slots| == c.Lap() && Asleep(s, at, AtCommit(c))
    requires at + c.capacity == TWO_32 && words == c.capacity * c.scale
    ensures FullOfOnes(c, Filled(c, s, at, words), at, words)
  {
    forall k | 0 <= k < words ensures Filled(c, s, at, words).slots[CopySlot(c, at, k)] == 1 {
      Overwritten(c, s.slots, at, words, k);
    }
  }

  lemma OverrunIs(c: Config, s: State, at: nat, words: nat)
    requires Shared(c, Producer) && |s.slots| == c.Lap() && Asleep(s, at, AtCommit(c))
    requires at + c.capacity == TWO_32 && words == c.capacity * c.scale
    ensures OverrunOnes(c, CopyingAt(c, Overrun(c, Filled(c, s, at, words)), 0, LateReservation(c), words), at, words)
  {
    var s' := CopyingAt(c, Overrun(c, Filled(c, s, at, words)), 0, LateReservation(c), words);
    forall k | 0 <= k < words
      ensures s'.slots[CopySlot(c, at, k)] == if k < (2 * c.capacity - c.size) * c.scale then 0 else 1
    {
      Overwritten(c, s.slots, at, words, k);
    }
    WordDifferenceInt(0, TWO_32 + c.capacity, at);
  }

  /** Falling asleep, at elements passing by, and the ring being filled. */
  lemma FillBehind(c: Config, at: nat, words: nat) returns (ls: seq<Label>, before: State)
    requires Shared(c, Producer) && words == c.capacity * c.scale
    ensures ExactRun(c, 3, ls) && |before.slots| == c.Lap() && Asleep(before, at, AtCommit(c))
    ensures Run(Unbounded, c, 3, ls) == Filled(c, before, at, words)
  {
    var start := FallAsleepLate(c);
    var asleep := SleepOn(c, start, at, AtCommit(c));
    before := Run(Unbounded, c, 3, asleep);
    ls := FillRing(c, asleep, before, at, words);
  }

  /** The late commit and its copy on the 32-bit machine. */
  lemma CommitAndCopy(c: Config, ls: seq<Label>, s: State, words: nat) returns (rest: seq<Label>)
    requires Shared(c, Producer) && |s.slots| == c.Lap() && |s.threads| == 3 && s.threads[0] == AtCommit(c)
    requires s.prod == HeadTail(TWO_32, TWO_32) && words == c.capacity * c.scale
    requires Run(Bits32, c, 3, ls) == Low(s)
    ensures forall i :: 0 <= i < |rest| ==> rest[i] == Go(0)
    ensures Run(Bits32, c, 3, ls + rest) == CopyingAt(c, Overrun(c, s), 0, LateReservation(c), words)
  {
    RunSnoc(Bits32, c, 3, ls, Go(0));
    LateCommit(c, s);
    var more := CopyOn(c, ls + [Go(0)], Overrun(c, s), LateReservation(c), words);
    rest := [Go(0)] + more;
    assert ls + rest == (ls + [Go(0)]) + more;
  }

  /**
   In every ring with several producers and a positive capacity: after a run whose words are all right the ring is
   full of unread ones, and a producer whose head was loaded 2^32 elements ago is at its compare-and-set. The
   unbounded machine sends it back. The 32-bit machine lets it go through: twice the capacity is then reserved beyond
   the consumers' tail, and its copy replaces exactly the oldest 2 * capacity - size unread elements.
   */
  lemma StaleOverrun(c: Config, at: nat, words: nat) returns (ls: seq<Label>, rest: seq<Label>)
    requires Shared(c, Producer) && at + c.capacity == TWO_32 && words == c.capacity * c.scale
    ensures RunsAgree(c, 3, ls) && FullOfOnes(c, Run(Unbounded, c, 3, ls), at, words)
    ensures Run(Unbounded, c, 3, ls + [Go(0)]).threads[0].LoadHead?
    ensures forall i :: 0 <= i < |rest| ==> rest[i] == Go(0)
    ensures OverrunOnes(c, Run(Bits32, c, 3, ls + rest), at, words)
  {
    var before;
    ls, before := FillBehind(c, at, words);
    var full := Run(Unbounded, c, 3, ls);
    FilledIs(c, before, at, words);
    OverrunIs(c, before, at, words);
    RunRefines(c, 3, ls);
    assert ls[..|ls|] == ls;
    rest := CommitAndCopy(c, ls, full, words);
    LateCommit(c, full);
    RunSnoc(Unbounded, c, 3, ls, Go(0));
  }
}
