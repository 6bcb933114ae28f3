/** Which call a thread of the ring protocol is executing: from its Begin to its return it keeps the same request. */
module RingCalls {
  import opened RingProtocol

  /**
   The call that thread t began at label i with this request is the one it is executing after j labels: it was idle
   before, and has neither returned nor changed its request since.
   */
  ghost predicate CallSince(a: Arith, c: Config, threads: nat, ls: seq<Label>, i: nat, j: nat, t: nat, req: Request)
    requires c.size > 0 && c.Lap() > 0 && i < j <= |ls| && t < threads
  {
    && ls[i] == Begin(t, req)
    && Run(a, c, threads, ls[..i]).threads[t].Idle? && MayBegin(c, Run(a, c, threads, ls[..i]), req)
    && forall m :: i < m <= j ==> Executes(a, c, threads, ls, m, t, req)
  }

  predicate Executes(a: Arith, c: Config, threads: nat, ls: seq<Label>, m: nat, t: nat, req: Request)
    requires c.size > 0 && c.Lap() > 0 && m <= |ls| && t < threads
  {
    var th := Run(a, c, threads, ls[..m]).threads[t];
    !th.Idle? && th.req == req
  }

  /** A step leaves the request of a call under way alone, and only a Begin puts one in place. */
  lemma StepKeepsRequest(a: Arith, c: Config, s: State, l: Label, t: nat)
    requires c.size > 0 && |s.slots| == c.Lap() > 0 && t < |s.threads| && !Next(a, c, s, l).threads[t].Idle?
    ensures var req := Next(a, c, s, l).threads[t].req;
      if s.threads[t].Idle? then l == Begin(t, req) && MayBegin(c, s, req) else s.threads[t].req == req
  {
  }

  lemma RunStep(a: Arith, c: Config, threads: nat, ls: seq<Label>, j: nat)
    requires c.size > 0 && c.Lap() > 0 && j < |ls|
    ensures Run(a, c, threads, ls[..j + 1]) == Next(a, c, Run(a, c, threads, ls[..j]), ls[j])
  {
    assert ls[..j + 1][..j] == ls[..j];
  }

  /** Whatever a thread is doing, it does it for the request of the last call it began, retries included. */
  lemma {:induction false} CallOrigin(a: Arith, c: Config, threads: nat, ls: seq<Label>, j: nat, t: nat, req: Request)
    returns (i: nat)
    requires c.size > 0 && c.Lap() > 0 && j <= |ls| && t < threads && Executes(a, c, threads, ls, j, t, req)
    ensures i < j && CallSince(a, c, threads, ls, i, j, t, req)
    decreases j
  {
    assert ls[..0] == [];
    RunStep(a, c, threads, ls, j - 1);
    StepKeepsRequest(a, c, Run(a, c, threads, ls[..j - 1]), ls[j - 1], t);
    if Run(a, c, threads, ls[..j - 1]).threads[t].Idle? {
      i := j - 1;
    } else {
      i := CallOrigin(a, c, threads, ls, j - 1, t, req);
    }
  }
}
