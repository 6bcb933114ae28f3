/**
 When the ring protocol on 32-bit counters is the protocol on unbounded counters: which single steps agree, which
 runs do, and that they do as long as no thread's loaded head goes stale by almost a whole 2^32.
 */
module RingWords {
  import opened Bits
  import opened QueueSpec
  import opened RingProtocol
  import opened RingInvariant
  import opened RingSteps
  import opened RingTraces
  import opened RingCalls
  import opened RingSafety

  // ----- the 32-bit state that an unbounded state denotes

  function LowHeadTail(ht: HeadTail): HeadTail {
    HeadTail(Word32(ht.head), Word32(ht.tail))
  }

  function LowThread(th: Thread): Thread {
    match th
    case Idle => Idle
    case LoadHead(req) => LoadHead(req)
    case LoadTail(req, lo) => LoadTail(req, Word32(lo))
    case Test(req, lo, room) => Test(req, Word32(lo), room)
    case Commit(req, lo, room, n) => Commit(req, Word32(lo), room, n)
    case Copy(req, lo, room, n, moved) => Copy(req, Word32(lo), room, n, moved)
    case Wait(req, lo, room, n, moved) => Wait(req, Word32(lo), room, n, moved)
    case Publish(req, lo, room, n, moved) => Publish(req, Word32(lo), room, n, moved)
    case Done(req, lo, room, n, moved) => Done(req, Word32(lo), room, n, moved)
  }

  function LowThreads(threads: seq<Thread>): (r: seq<Thread>)
    ensures |r| == |threads|
  {
    seq(|threads|, i requires 0 <= i < |threads| => LowThread(threads[i]))
  }

  function Low(s: State): (r: State)
    ensures |r.threads| == |s.threads| && r.slots == s.slots
  {
    State(LowHeadTail(s.prod), LowHeadTail(s.cons), s.slots, LowThreads(s.threads))
  }

  // ----- the steps that agree

  /**
   The two steps that can go wrong are the load of the opposite tail, whose difference may not fit in a word, and a
   compare-and-set, which cannot tell counters apart that differ by a multiple of 2^32.
   */
  predicate StepExact(c: Config, s: State, l: Label) {
    l.Go? && l.t < |s.threads| ==>
      match s.threads[l.t]
      case LoadTail(req, lo) => Limit(c, s.prod, s.cons, req.side) - lo < TWO_32
      case Commit(req, lo, _, _) =>
        c.Single(req.side) || s.Own(req.side).head == lo || (s.Own(req.side).head - lo) % TWO_32 != 0
      case _ => true
  }

  // ----- one step

  lemma LowReplace(s: State, t: nat, th: Thread)
    requires t < |s.threads|
    ensures Low(s.WithThread(t, th)) == Low(s).WithThread(t, LowThread(th))
  {
    assert LowThreads(s.threads[t := th]) == LowThreads(s.threads)[t := LowThread(th)];
  }

  lemma LowOwn(s: State, side: Side, ht: HeadTail)
    ensures Low(s).Own(side) == LowHeadTail(s.Own(side))
    ensures Low(s.WithOwn(side, ht)) == Low(s).WithOwn(side, LowHeadTail(ht))
  {
  }

  /** The room a thread computes from 32-bit counters is the true one exactly when that fits in a word. */
  lemma RoomExact(bias: int, tail: int, lo: int)
    requires bias + tail - lo >= 0
    ensures Word32(bias + Word32(tail) - Word32(lo)) == bias + tail - lo <==> bias + tail - lo < TWO_32
  {
    if bias + tail - lo < TWO_32 {
      WordDifferenceInt(bias, tail, lo);
    }
  }

  lemma WordDifferenceInt(bias: int, a: int, b: int)
    requires 0 <= bias + a - b < TWO_32
    ensures Word32(bias + Word32(a) - Word32(b)) == bias + a - b
  {
    DivModUnique(bias + Word32(a) - Word32(b), TWO_32, b / TWO_32 - a / TWO_32, bias + a - b);
  }

  /** Two counters less than 2^32 apart are equal exactly when their low words are. */
  lemma SameWord(a: int, b: int)
    requires a - b < TWO_32 && b - a < TWO_32
    ensures Word32(a) == Word32(b) <==> a == b
  {
  }

  lemma LowSlot(c: Config, lo: nat, k: nat)
    requires c.Ok() && c.size > 0
    ensures CopySlot(c, Word32(lo), k) == CopySlot(c, lo, k)
  {
    LowBits(lo, c.size);
  }

  lemma WrapSum(lo: nat, n: nat)
    ensures Wrap(Bits32, Word32(lo) + n) == Word32(lo + n)
  {
    WordSum(lo, n);
  }

  lemma LowMayBegin(c: Config, s: State, req: Request)
    ensures MayBegin(c, Low(s), req) <==> MayBegin(c, s, req)
  {
    assert forall u :: 0 <= u < |s.threads| ==> (Low(s).threads[u].On(req.side) <==> s.threads[u].On(req.side));
  }

  /** Counters have the same word exactly when they differ by a multiple of 2^32. */
  lemma WordsAgree(a: int, b: int)
    ensures Word32(a) == Word32(b) <==> (a - b) % TWO_32 == 0
  {
    var d := (a - b) % TWO_32;
    assert a - b == TWO_32 * ((a - b) / TWO_32) + d;
  }

  /** A commit goes wrong exactly when it passes a head that is not the loaded one. */
  lemma CommitRefines(c: Config, s: State, t: nat)
    requires c.Ok() && c.size > 0 && |s.slots| == c.Lap() && t < |s.threads| && s.threads[t].Commit?
    requires 0 <= s.threads[t].lo && s.threads[t].n > 0
    ensures Next(Bits32, c, Low(s), Go(t)) == Low(Next(Unbounded, c, s, Go(t))) <==> StepExact(c, s, Go(t))
  {
    var Commit(req, lo, room, n) := s.threads[t];
    WordsAgree(s.Own(req.side).head, lo);
    if c.Single(req.side) || s.Own(req.side).head == lo {
      CommitGoes(c, s, t);
    } else {
      StaleCommit(c, s, t);
      LowReplace(s, t, LoadHead(req));
    }
  }

  lemma CommitGoes(c: Config, s: State, t: nat)
    requires c.size > 0 && |s.slots| == c.Lap() > 0 && t < |s.threads| && s.threads[t].Commit?
    requires 0 <= s.threads[t].lo && s.threads[t].n > 0
    requires c.Single(s.threads[t].req.side) || s.Own(s.threads[t].req.side).head == s.threads[t].lo
    ensures Next(Bits32, c, Low(s), Go(t)) == Low(Next(Unbounded, c, s, Go(t)))
  {
    var Commit(req, lo, room, n) := s.threads[t];
    WrapSum(lo, n);
    var ht := s.Own(req.side).(head := lo + n);
    LowOwn(s, req.side, ht);
    LowReplace(s.WithOwn(req.side, ht), t, Copy(req, lo, room, n, []));
  }

  /**
   At a multi-threaded compare-and-set from a stale head, the 32-bit machine goes ahead exactly when the head has
   moved on by a multiple of 2^32; the unbounded machine never does.
   */
  lemma StaleCommit(c: Config, s: State, t: nat)
    requires c.size > 0 && |s.slots| == c.Lap() > 0 && t < |s.threads| && s.threads[t].Commit?
    requires var th := s.threads[t]; !c.Single(th.req.side) && th.lo != s.Own(th.req.side).head
    ensures Low(Next(Unbounded, c, s, Go(t))).threads[t].LoadHead?
    ensures var th := s.threads[t];
      Next(Bits32, c, Low(s), Go(t)).threads[t].Copy? <==> (s.Own(th.req.side).head - th.lo) % TWO_32 == 0
  {
    var th := s.threads[t];
    LowOwn(s, th.req.side, s.Own(th.req.side));
    WordsAgree(s.Own(th.req.side).head, th.lo);
  }

  lemma CopyRefines(c: Config, s: State, t: nat)
    requires c.Ok() && c.size > 0 && |s.slots| == c.Lap() && t < |s.threads| && s.threads[t].Copy?
    requires 0 <= s.threads[t].lo
    ensures Next(Bits32, c, Low(s), Go(t)) == Low(Next(Unbounded, c, s, Go(t)))
  {
    var Copy(req, lo, room, n, moved) := s.threads[t];
    LowSlot(c, lo, |moved|);
    var j := CopySlot(c, lo, |moved|);
    var w := if req.side == Producer then ObjWord(req, |moved|) else s.slots[j];
    LowReplace(s, t, Publish(req, lo, room, n, moved));
    LowReplace(s, t, Wait(req, lo, room, n, moved));
    LowReplace(s, t, Copy(req, lo, room, n, moved + [w]));
    LowReplace(s.(slots := s.slots[j := w]), t, Copy(req, lo, room, n, moved + [w]));
  }

  lemma PublishRefines(c: Config, s: State, t: nat)
    requires c.Ok() && c.size > 0 && |s.slots| == c.Lap() && t < |s.threads| && s.threads[t].Publish?
    requires 0 <= s.threads[t].lo && s.threads[t].n > 0
    ensures Next(Bits32, c, Low(s), Go(t)) == Low(Next(Unbounded, c, s, Go(t)))
  {
    var Publish(req, lo, room, n, moved) := s.threads[t];
    WrapSum(lo, n);
    var ht := s.Own(req.side).(tail := lo + n);
    LowOwn(s, req.side, ht);
    LowReplace(s.WithOwn(req.side, ht), t, Done(req, lo, room, n, moved));
  }

  /** The wait test is exact: the tail is at most capacity behind. */
  lemma WaitRefines(c: Config, g: Logged, t: nat)
    requires Inv(c, g) && c.size > 0 && t < |g.s.threads| && g.s.threads[t].Wait?
    ensures Next(Bits32, c, Low(g.s), Go(t)) == Low(Next(Unbounded, c, g.s, Go(t)))
  {
    var side := g.s.threads[t].req.side;
    assert QueuesOk(g);
    HolderBounds(g.s.threads, g.s.Own(side), side, g.Queue(side), t);
    PollRefines(c, g.s, t);
  }

  lemma PollRefines(c: Config, s: State, t: nat)
    requires c.size > 0 && |s.slots| == c.Lap() > 0 && t < |s.threads| && s.threads[t].Wait?
    requires 0 <= s.threads[t].lo - s.Own(s.threads[t].req.side).tail < TWO_32
    ensures Next(Bits32, c, Low(s), Go(t)) == Low(Next(Unbounded, c, s, Go(t)))
  {
    var Wait(req, lo, room, n, moved) := s.threads[t];
    SameWord(s.Own(req.side).tail, lo);
    LowOwn(s, req.side, s.Own(req.side));
    LowReplace(s, t, Publish(req, lo, room, n, moved));
  }

  /** A load of the opposite tail goes wrong exactly when the room does not fit in a word. */
  lemma LoadTailRefines(c: Config, s: State, t: nat)
    requires c.size > 0 && |s.slots| == c.Lap() > 0 && t < |s.threads| && s.threads[t].LoadTail?
    requires var th := s.threads[t]; Limit(c, s.prod, s.cons, th.req.side) - th.lo >= 0
    ensures Next(Bits32, c, Low(s), Go(t)) == Low(Next(Unbounded, c, s, Go(t))) <==> StepExact(c, s, Go(t))
  {
    var LoadTail(req, lo) := s.threads[t];
    var tail := s.Opposite(req.side).tail;
    var room := c.Bias(req.side) + tail - lo;
    var word := Word32(c.Bias(req.side) + Word32(tail) - Word32(lo));
    RoomExact(c.Bias(req.side), tail, lo);
    LowOwn(s, req.side.Other(), s.Opposite(req.side));
    LowReplace(s, t, Test(req, lo, room));
    assert Next(Bits32, c, Low(s), Go(t)).threads[t] == Test(req, Word32(lo), word);
    assert Low(Next(Unbounded, c, s, Go(t))).threads[t] == Test(req, Word32(lo), room);
  }

  lemma LoadHeadRefines(c: Config, s: State, t: nat)
    requires c.Ok() && c.size > 0 && |s.slots| == c.Lap() && t < |s.threads| && s.threads[t].LoadHead?
    ensures Next(Bits32, c, Low(s), Go(t)) == Low(Next(Unbounded, c, s, Go(t)))
  {
    var th := s.threads[t];
    LowOwn(s, th.req.side, s.Own(th.req.side));
    LowReplace(s, t, LocalNext(c, s, th));
  }

  lemma LocalRefines(c: Config, s: State, t: nat)
    requires c.Ok() && c.size > 0 && |s.slots| == c.Lap() && t < |s.threads|
    requires s.threads[t].Idle? || s.threads[t].Test? || s.threads[t].Done?
    ensures Next(Bits32, c, Low(s), Go(t)) == Low(Next(Unbounded, c, s, Go(t)))
  {
    if !s.threads[t].Idle? {
      LowReplace(s, t, LocalNext(c, s, s.threads[t]));
    }
  }

  /** Under the invariant the 32-bit step is the low words of the unbounded step exactly when the step is exact. */
  lemma StepRefines(c: Config, g: Logged, l: Label)
    requires Inv(c, g) && c.size > 0
    ensures Next(Bits32, c, Low(g.s), l) == Low(Next(Unbounded, c, g.s, l)) <==> StepExact(c, g.s, l)
  {
    if l.t < |g.s.threads| {
      match l
      case Begin(t, req) =>
        BeginRefines(c, g.s, t, req);
      case Go(t) =>
        GoRefines(c, g, t);
    }
  }

  lemma BeginRefines(c: Config, s: State, t: nat, req: Request)
    requires c.size > 0 && c.Lap() > 0 && |s.slots| == c.Lap() && t < |s.threads|
    ensures Next(Bits32, c, Low(s), Begin(t, req)) == Low(Next(Unbounded, c, s, Begin(t, req)))
  {
    LowMayBegin(c, s, req);
    LowReplace(s, t, LoadHead(req));
  }

  lemma GoRefines(c: Config, g: Logged, t: nat)
    requires Inv(c, g) && c.size > 0 && t < |g.s.threads|
    ensures Next(Bits32, c, Low(g.s), Go(t)) == Low(Next(Unbounded, c, g.s, Go(t))) <==> StepExact(c, g.s, Go(t))
  {
    var th := g.s.threads[t];
    assert ThreadOk(c, g.s.prod, g.s.cons, g.s.slots, g.enqueued, th);
    if th.Commit? {
      CommitRefines(c, g.s, t);
    } else if th.LoadTail? {
      LoadTailRefines(c, g.s, t);
    } else {
      OtherRefines(c, g, t);
    }
  }

  lemma OtherRefines(c: Config, g: Logged, t: nat)
    requires Inv(c, g) && c.size > 0 && t < |g.s.threads| && !g.s.threads[t].Commit? && !g.s.threads[t].LoadTail?
    ensures Next(Bits32, c, Low(g.s), Go(t)) == Low(Next(Unbounded, c, g.s, Go(t)))
  {
    var th := g.s.threads[t];
    assert ThreadOk(c, g.s.prod, g.s.cons, g.s.slots, g.enqueued, th);
    if th.Copy? {
      CopyRefines(c, g.s, t);
    } else if th.Publish? {
      PublishRefines(c, g.s, t);
    } else if th.Wait? {
      WaitRefines(c, g, t);
    } else if th.LoadHead? {
      LoadHeadRefines(c, g.s, t);
    } else {
      LocalRefines(c, g.s, t);
    }
  }

  // ----- whole runs

  /** Every step of the unbounded run along this schedule is one that agrees. */
  predicate ExactRun(c: Config, threads: nat, ls: seq<Label>)
    requires c.size > 0 && c.Lap() > 0
  {
    forall j :: 0 <= j < |ls| ==> StepExact(c, Run(Unbounded, c, threads, ls[..j]), ls[j])
  }

  /** The 32-bit run is, state by state, the low words of the unbounded run. */
  predicate RunsAgree(c: Config, threads: nat, ls: seq<Label>)
    requires c.size > 0 && c.Lap() > 0
  {
    forall j :: 0 <= j <= |ls| ==>
      Run(Bits32, c, threads, ls[..j]) == Low(Run(Unbounded, c, threads, ls[..j]))
  }

  lemma InitialAgrees(c: Config, threads: nat)
    requires c.size > 0 && c.Lap() > 0
    ensures Run(Bits32, c, threads, []) == Low(Run(Unbounded, c, threads, []))
  {
    assert LowThreads(Initial(c, threads).threads) == Initial(c, threads).threads;
  }

  /** From states that agree, the next ones agree exactly when the step is exact. */
  lemma OneMoreAgrees(c: Config, threads: nat, ls: seq<Label>, j: nat)
    requires c.Ok() && c.size > 0 && j < |ls|
    requires Run(Bits32, c, threads, ls[..j]) == Low(Run(Unbounded, c, threads, ls[..j]))
    ensures Run(Bits32, c, threads, ls[..j + 1]) == Low(Run(Unbounded, c, threads, ls[..j + 1]))
       <==> StepExact(c, Run(Unbounded, c, threads, ls[..j]), ls[j])
  {
    assert ls[..j + 1][..j] == ls[..j];
    ReachableInv(c, threads, ls[..j]);
    StepRefines(c, RunLogged(c, threads, ls[..j]), ls[j]);
  }

  lemma {:induction false} ExactAgrees(c: Config, threads: nat, ls: seq<Label>, j: nat)
    requires c.Ok() && c.size > 0 && j <= |ls| && ExactRun(c, threads, ls)
    ensures Run(Bits32, c, threads, ls[..j]) == Low(Run(Unbounded, c, threads, ls[..j]))
  {
    if j == 0 {
      InitialAgrees(c, threads);
    } else {
      ExactAgrees(c, threads, ls, j - 1);
      OneMoreAgrees(c, threads, ls, j - 1);
    }
  }

  /** The two runs agree all along a schedule exactly when every step of the unbounded run is exact. */
  lemma RunRefines(c: Config, threads: nat, ls: seq<Label>)
    requires c.Ok() && c.size > 0
    ensures RunsAgree(c, threads, ls) <==> ExactRun(c, threads, ls)
  {
    if ExactRun(c, threads, ls) {
      forall j | 0 <= j <= |ls| ensures Run(Bits32, c, threads, ls[..j]) == Low(Run(Unbounded, c, threads, ls[..j])) {
        ExactAgrees(c, threads, ls, j);
      }
    }
    if RunsAgree(c, threads, ls) {
      forall j | 0 <= j < |ls| ensures StepExact(c, Run(Unbounded, c, threads, ls[..j]), ls[j]) {
        OneMoreAgrees(c, threads, ls, j);
      }
    }
  }

  // ----- a bound that makes all steps exact

  /** Fewer than 2^32 - capacity elements were reserved on a thread's side since it loaded the head. */
  predicate FreshThread(c: Config, s: State, th: Thread) {
    th.Loaded() ==> s.Own(th.req.side).head - th.lo < TWO_32 - c.capacity
  }

  predicate Fresh(c: Config, s: State) {
    forall t :: 0 <= t < |s.threads| ==> FreshThread(c, s, s.threads[t])
  }

  /** Every state of the unbounded run along this schedule is fresh. */
  predicate FreshRun(c: Config, threads: nat, ls: seq<Label>)
    requires c.size > 0 && c.Lap() > 0
  {
    forall j :: 0 <= j <= |ls| ==> Fresh(c, Run(Unbounded, c, threads, ls[..j]))
  }

  lemma FreshIsExact(c: Config, g: Logged, l: Label)
    requires Inv(c, g) && c.size > 0 && Fresh(c, g.s)
    ensures StepExact(c, g.s, l)
  {
    if l.Go? && l.t < |g.s.threads| && g.s.threads[l.t].Loaded() {
      assert FreshThread(c, g.s, g.s.threads[l.t]);
      assert ThreadOk(c, g.s.prod, g.s.cons, g.s.slots, g.enqueued, g.s.threads[l.t]);
      FreshGap(c, g.s, l.t);
    }
  }

  lemma FreshGap(c: Config, s: State, t: nat)
    requires c.Ok() && Counters(c, s.prod, s.cons) && t < |s.threads| && s.threads[t].Loaded()
    requires s.threads[t].lo <= s.Own(s.threads[t].req.side).head && FreshThread(c, s, s.threads[t])
    ensures StepExact(c, s, Go(t))
  {
    var th := s.threads[t];
    var gap := s.Own(th.req.side).head - th.lo;
    SmallGap(gap);
  }

  lemma SmallGap(gap: int)
    requires 0 <= gap < TWO_32
    ensures gap == 0 || gap % TWO_32 != 0
  {
  }

  /** Along every schedule on which no loaded head goes that stale, the runs agree. */
  lemma FreshRunRefines(c: Config, threads: nat, ls: seq<Label>)
    requires c.Ok() && c.size > 0 && FreshRun(c, threads, ls)
    ensures ExactRun(c, threads, ls) && RunsAgree(c, threads, ls)
  {
    forall j | 0 <= j < |ls| ensures StepExact(c, Run(Unbounded, c, threads, ls[..j]), ls[j]) {
      ReachableInv(c, threads, ls[..j]);
      assert Fresh(c, Run(Unbounded, c, threads, ls[..j]));
      FreshIsExact(c, RunLogged(c, threads, ls[..j]), ls[j]);
    }
    RunRefines(c, threads, ls);
  }

  lemma WordsThread(c: Config, threads: nat, ls: seq<Label>, j: nat, t: nat)
    requires c.Ok() && c.size > 0 && ExactRun(c, threads, ls) && j <= |ls| && t < threads
    ensures Run(Bits32, c, threads, ls[..j]) == Low(StateAt(c, threads, ls, j))
    ensures SamePlace(Run(Bits32, c, threads, ls[..j]).threads[t], StateAt(c, threads, ls, j).threads[t])
  {
    ExactAgrees(c, threads, ls, j);
    LowSamePlace(StateAt(c, threads, ls, j).threads[t]);
  }

  /** Two threads in the same call and, as far as a refusal goes, at the same place in it. */
  predicate SamePlace(low: Thread, th: Thread) {
    && (low.LoadTail? <==> th.LoadTail?) && (low.Done? <==> th.Done?)
    && (low.Idle? <==> th.Idle?) && (!th.Idle? ==> low.req == th.req) && (th.Done? ==> low.n == th.n)
  }

  lemma LowSamePlace(th: Thread)
    ensures SamePlace(LowThread(th), th)
  {
  }

  /** On such a schedule the machines execute the same calls. */
  lemma SameCalls(c: Config, threads: nat, ls: seq<Label>, i: nat, j: nat, t: nat, req: Request)
    requires c.Ok() && c.size > 0 && ExactRun(c, threads, ls) && i < j <= |ls| && t < threads
    requires CallSince(Unbounded, c, threads, ls, i, j, t, req)
    ensures CallSince(Bits32, c, threads, ls, i, j, t, req)
  {
    WordsThread(c, threads, ls, i, t);
    LowMayBegin(c, StateAt(c, threads, ls, i), req);
    forall m | i < m <= j ensures Executes(Bits32, c, threads, ls, m, t, req) {
      WordsThread(c, threads, ls, m, t);
      assert Executes(Unbounded, c, threads, ls, m, t, req);
    }
  }

  /**
   What a finished 32-bit call that moved something is: the call its thread began, with the granted number of words,
   those logged at its position, an enqueue's the first of its own table; and nothing is lost: first in, first out.
   */
  lemma WordsFirstInFirstOut(c: Config, threads: nat, ls: seq<Label>, t: nat) returns (b: nat)
    requires c.Ok() && c.size > 0 && ExactRun(c, threads, ls) && t < threads
    requires var th := Run(Bits32, c, threads, ls).threads[t]; th.Done? && th.n > 0
    ensures b < |ls| && CallSince(Bits32, c, threads, ls, b, |ls|, t, Run(Bits32, c, threads, ls).threads[t].req)
    ensures var g := RunLogged(c, threads, ls); var th := Run(Bits32, c, threads, ls).threads[t];
      && g.dequeued <= g.enqueued
      && g.s.threads[t].Done? && th.lo == Word32(g.s.threads[t].lo)
      && Segment(g.enqueued, At(c, g.s.threads[t].lo), th.moved)
      && |th.moved| == At(c, th.n) && th.room >= 0 && th.n == Granted(th.req.max, th.room, th.req.behavior)
      && (th.req.side == Producer ==> th.moved <= th.req.objs)
  {
    ExactAgrees(c, threads, ls, |ls|);
    assert ls[..|ls|] == ls;
    b := ReturnedWords(c, threads, ls, t);
    FirstInFirstOut(c, threads, ls);
    SameCalls(c, threads, ls, b, |ls|, t, Run(Unbounded, c, threads, ls).threads[t].req);
  }

  /**
   Along every schedule on which the runs agree, a call of the 32-bit machine that returns with nothing moved is
   the call its thread began, and justified: when this call last loaded the opposite tail the ring really could not
   serve what it had asked for at the beginning.
   */
  lemma WordsRefusalJustified(c: Config, threads: nat, ls: seq<Label>, j: nat, t: nat, req: Request)
    returns (b: nat, i: nat)
    requires c.Ok() && c.size > 0 && ExactRun(c, threads, ls) && j < |ls| && ls[j] == Go(t) && t < threads
    requires !Run(Bits32, c, threads, ls[..j]).threads[t].Done?
    requires var th := Run(Bits32, c, threads, ls[..j + 1]).threads[t]; th.Done? && th.n == 0 && th.req == req
    ensures b < i < j && CallSince(Bits32, c, threads, ls, b, j + 1, t, req)
    ensures ls[i] == Go(t) && Run(Bits32, c, threads, ls[..i]).threads[t].LoadTail?
    ensures forall m :: i < m < j ==> ls[m] != Go(t)
    ensures var s := StateAt(c, threads, ls, i);
      && Run(Bits32, c, threads, ls[..i]) == Low(s)
      && (req.max > 0 ==>
           && Available(c, s, req.side) < req.max
           && (req.behavior == Variable ==> Available(c, s, req.side) == 0))
  {
    WordsThread(c, threads, ls, j, t);
    WordsThread(c, threads, ls, j + 1, t);
    b, i := RefusalJustified(c, threads, ls, j, t, req);
    WordsThread(c, threads, ls, i, t);
    SameCalls(c, threads, ls, b, j + 1, t, req);
  }
}
