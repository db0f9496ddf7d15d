/** What callers of the thread pool may rely on, over every run. */
module ThreadPoolTheorems {
  import opened Options
  import opened ThreadPool

  /** A ticket that a caller could hold when waiter w began: execute had returned it, or it is the illegal one. */
  predicate Returned(p: Pool, w: Waiter, t: Ticket) {
    t == ILLEGAL_TICKET || exists m | 0 <= m < |p.submitted| && m < w.since :: p.submitted[m] == t
  }

  /** Conditions are destroyed when waitFor returns: no entry refers to one that is not waited on. */
  lemma NoDanglingCondition(l: Limits, states: seq<Pool>, steps: seq<Step>, i: nat, t: Ticket, c: Cond)
    requires Run(l, states, steps) && i < |states| && t in states[i].running && c !in states[i].waiters
    ensures Count(states[i].running[t], c) == 0 && states[i].running[t].cond != Some(c)
    ensures c !in states[i].running[t].conds
  {
    RunKeeps(l, states, steps, i);
    assert Count(states[i].running[t], c) == Expected(states[i].running[t].serial, states[i].waiters, t, c);
  }

  /** The names of the waitFor call that makes step s. */
  function NamesOf(p: Pool, s: Step): seq<Ticket>
    requires s.WaitStart? || (s.WaitAgain? && s.c in p.waiters)
  {
    if s.WaitStart? then s.names else p.waiters[s.c].tickets
  }

  /**
   * When waitFor returns, it answers whether its tickets have all ended, and the answer is false only after a time-out;
   * it stays only while one of them runs.
   */
  lemma WaitForReturns(l: Limits, states: seq<Pool>, steps: seq<Step>, i: nat)
    requires Run(l, states, steps) && i < |steps| && (steps[i].WaitStart? || steps[i].WaitAgain?)
    ensures StepAt(l, states, steps, i)
    ensures var p, q, s := states[i], states[i + 1], steps[i]; var names := NamesOf(p, s);
            && q.running.Keys == p.running.Keys
            && (s.c in q.waiters <==> AnyRunning(p.running, names) && !s.timedOut)
            && (s.c !in q.waiters && !s.timedOut ==> forall t | t in names :: t !in q.running)
            && (s.c !in q.waiters ==> s.c in q.answers)
            && (s.c !in q.waiters ==> (q.answers[s.c] <==> forall t | t in names :: t !in p.running))
            && (s.c !in q.waiters && !q.answers[s.c] ==> s.timedOut)
            && (forall d | d != s.c || s.c in q.waiters :: d in q.answers <==> d in p.answers)
            && (forall d | d in p.answers && (d != s.c || s.c in q.waiters) :: q.answers[d] == p.answers[d])
            && (s.c in q.waiters ==> q.waiters[s.c].asleep && q.waiters[s.c].tickets == names)
  {
    assert StepAt(l, states, steps, i);
    hide Register, Deregister, Inv;
  }

  /** Each task is taken once, in the order of submission, and a ticket is live from execute to the end of its task. */
  lemma TicketLifecycle(l: Limits, states: seq<Pool>, steps: seq<Step>, i: nat)
    requires Run(l, states, steps) && i < |states|
    ensures var p := states[i];
            && p.submitted == p.taken + p.queue
            && p.nRunning == |p.running| == |p.queue| + |p.executing|
            && p.running.Keys == (set t | t in p.queue) + p.executing.Values
            && (forall a, b | 0 <= a < b < |p.queue| :: p.queue[a] != p.queue[b])
            && (forall a, b | a in p.executing && b in p.executing && a != b :: p.executing[a] != p.executing[b])
            && p.executing.Values !! (set t | t in p.queue)
            && ILLEGAL_TICKET !in p.running
  {
    RunKeeps(l, states, steps, i);
  }

  /** The task that step i takes, if it takes one: its place in the order of submission. */
  ghost predicate Takes(states: seq<Pool>, i: nat, k: nat)
    requires i + 1 < |states|
  {
    |states[i].taken| == k && |states[i + 1].taken| == k + 1
  }

  /**
   * In a whole run no task is taken twice: the task with number k is taken by one step at most, and it is the k-th
   * submitted one.
   */
  lemma TakenOnce(l: Limits, states: seq<Pool>, steps: seq<Step>, i: nat, j: nat, k: nat)
    requires Run(l, states, steps) && |states| == |steps| + 1 && i < |steps| && j < |steps|
    requires Takes(states, i, k) && Takes(states, j, k)
    ensures i == j
    ensures k < |states[|steps|].submitted| && states[i + 1].taken[k] == states[|steps|].submitted[k]
  {
    hide Run;
    if i < j { SubmittedGrows(l, states, steps, i + 1, j); }
    if j < i { SubmittedGrows(l, states, steps, j + 1, i); }
    TakenWasSubmitted(l, states, steps, i + 1);
  }

  lemma TakenWasSubmitted(l: Limits, states: seq<Pool>, steps: seq<Step>, i: nat)
    requires Run(l, states, steps) && i < |states|
    ensures |states| == |steps| + 1 && states[i].taken <= states[|steps|].submitted
  {
    SubmittedGrows(l, states, steps, i, |steps|);
    TicketLifecycle(l, states, steps, i);
    hide Run;
    assert states[i].taken <= states[i].submitted;
  }

  /**
   * No lost wake-up: a sleeping waiter that names no ticket issued since it began is registered with
   * a ticket that is running, so the end of that task wakes it.
   */
  lemma NoLostWakeup(l: Limits, states: seq<Pool>, steps: seq<Step>, i: nat, c: Cond)
    requires Run(l, states, steps) && i < |states| && c in states[i].waiters && states[i].waiters[c].asleep
    requires forall k | states[i].waiters[c].since <= k < |states[i].submitted| ::
            states[i].submitted[k] !in states[i].waiters[c].tickets
    ensures exists t ::
            t in states[i].running && t in states[i].waiters[c].tickets && Count(states[i].running[t], c) > 0
  {
    RunKeeps(l, states, steps, i);
    assert !Anticipates(states[i].submitted, states[i].waiters[c]);
    assert Covered(states[i].running, states[i].waiters[c], c);
  }

  /** In particular when it named only tickets it had been given and the ticket counter has not wrapped. */
  lemma GivenTicketsWake(l: Limits, states: seq<Pool>, steps: seq<Step>, i: nat, c: Cond)
    requires Run(l, states, steps) && i < |states| && c in states[i].waiters && states[i].waiters[c].asleep
    requires |states[i].submitted| < TICKETS
    requires forall t | t in states[i].waiters[c].tickets :: Returned(states[i], states[i].waiters[c], t)
    ensures exists t ::
            t in states[i].running && t in states[i].waiters[c].tickets && Count(states[i].running[t], c) > 0
  {
    RunKeeps(l, states, steps, i);
    var p, w := states[i], states[i].waiters[c];
    forall k | w.since <= k < |p.submitted| ensures p.submitted[k] !in w.tickets {
      assert p.submitted[k] == k + 1;
      assert !Returned(p, w, p.submitted[k]);
    }
    NoLostWakeup(l, states, steps, i, c);
  }

  /** Asleep although none of the tickets runs. */
  predicate Stranded(p: Pool, c: Cond) {
    c in p.waiters && p.waiters[c].asleep && !AnyRunning(p.running, p.waiters[c].tickets)
  }

  /** The end of tid's task is the end of the last ticket c waits for, and that ticket was issued after c began. */
  predicate LastUnregistered(p: Pool, tid: Tid, c: Cond) {
    && tid in p.executing && p.executing[tid] in p.running && c in p.waiters && p.waiters[c].asleep
    && p.executing[tid] in p.waiters[c].tickets
    && (forall t | t in p.waiters[c].tickets && t in p.running :: t == p.executing[tid])
    && p.waiters[c].since <= p.running[p.executing[tid]].serial
  }

  lemma ReleaseStrands(l: Limits, p: Pool, tid: Tid, c: Cond)
    requires Inv(l, p) && tid in p.executing && c in p.waiters && !Stranded(p, c)
    ensures Stranded(Release(p, tid), c) <==> LastUnregistered(p, tid, c)
  {
    hide Threads, Counted, Served, Numbered, Begun, Notified, Issued;
    var q, t := Release(p, tid), p.executing[tid];
    assert t in p.running;
    assert Count(p.running[t], c) == Expected(p.running[t].serial, p.waiters, t, c);
    if Stranded(q, c) {
      var i :| 0 <= i < |p.waiters[c].tickets| && p.waiters[c].tickets[i] in p.running;
      assert p.waiters[c].tickets[i] !in q.running;
      forall u | u in p.waiters[c].tickets && u in p.running ensures u == t {
        assert u !in q.running;
      }
    }
  }

  /**
   * A step strands a waiter exactly when it ends the waiter's last running ticket and that ticket was issued after
   * the wait began.
   */
  lemma StrandsExactly(l: Limits, p: Pool, s: Step, c: Cond)
    requires Inv(l, p) && Enabled(l, p, s) && !Stranded(p, c)
    ensures Stranded(Apply(l, p, s), c) <==> s.Finish? && LastUnregistered(p, s.tid, c)
  {
    hide Inv, FirstFree, AnyRunning, Look, Join, Round, Release;
    match s
    case Execute(_, _, _) => ExecuteStrands(l, p, s, c);
    case Proceed(tid) => RoundFrame(l, p, tid);
    case Finish(tid) =>
      RoundFrame(l, Release(p, tid), tid);
      ReleaseFrame(p, tid);
      if c in p.waiters { ReleaseStrands(l, p, tid, c); }
    case WaitStart(d, names, timedOut) =>
      JoinFrame(p, d, names);
      JoinStrands(p, d, names, c);
      LookStrands(Join(p, d, names), d, timedOut, c);
    case WaitAgain(d, timedOut) => LookStrands(p, d, timedOut, c);
    case _ =>
  }

  lemma ExecuteStrands(l: Limits, p: Pool, s: Step, c: Cond)
    requires Enabled(l, p, s) && s.Execute? && !Stranded(p, c)
    ensures !Stranded(Apply(l, p, s), c)
  {
    hide FirstFree, TicketAt, Apply;
    SubmitFrame(l, p, s);
    var q := Apply(l, p, s);
    if c in p.waiters && p.waiters[c].asleep {
      var i :| 0 <= i < |p.waiters[c].tickets| && p.waiters[c].tickets[i] in p.running;
      assert p.waiters[c].tickets[i] in q.running;
    }
  }

  lemma JoinStrands(p: Pool, d: Cond, names: seq<Ticket>, c: Cond)
    requires !Stranded(p, c)
    ensures !Stranded(Join(p, d, names), c)
  {
    hide Register;
    var q := Join(p, d, names);
    if c != d && c in p.waiters && p.waiters[c].asleep {
      var i :| 0 <= i < |p.waiters[c].tickets| && p.waiters[c].tickets[i] in p.running;
      assert q.waiters[c].tickets[i] in q.running;
    }
  }

  lemma LookStrands(p: Pool, d: Cond, timedOut: bool, c: Cond)
    requires d in p.waiters && !Stranded(p, c)
    ensures !Stranded(Look(p, d, timedOut), c)
  {
    hide Deregister;
    var q := Look(p, d, timedOut);
    if c in q.waiters && q.waiters[c].asleep {
      assert AnyRunning(p.running, q.waiters[c].tickets);
      var i :| 0 <= i < |q.waiters[c].tickets| && q.waiters[c].tickets[i] in p.running;
      assert q.waiters[c].tickets[i] in q.running;
    }
  }

  /** c sleeps and no entry will notify it. */
  ghost predicate Forgotten(p: Pool, c: Cond) {
    c in p.waiters && p.waiters[c].asleep && forall t | t in p.running :: Count(p.running[t], c) == 0
  }

  lemma JoinForgotten(p: Pool, c: Cond, d: Cond, names: seq<Ticket>)
    requires Forgotten(p, c) && d != c
    ensures Forgotten(Join(p, d, names), c)
  {
    hide Register, Count;
    var q := Join(p, d, names);
    forall t | t in q.running ensures Count(q.running[t], c) == 0 { RegisterCounts(p.running, names, d, t, c); }
  }

  lemma LookForgotten(p: Pool, c: Cond, d: Cond, timedOut: bool)
    requires Forgotten(p, c) && d != c && d in p.waiters
    ensures Forgotten(Look(p, d, timedOut), c)
  {
    hide Deregister, Count, AnyRunning;
    var q := Look(p, d, timedOut);
    forall t | t in q.running
      ensures Count(q.running[t], c) == 0
    {
      DeregisterCounts(p.running, p.waiters[d].tickets, d, t, c);
    }
  }

  lemma ExecuteForgotten(l: Limits, p: Pool, s: Step, c: Cond)
    requires Enabled(l, p, s) && Forgotten(p, c) && s.Execute?
    ensures Forgotten(Apply(l, p, s), c)
  {
    hide FirstFree, TicketAt, Apply;
    SubmitFrame(l, p, s);
  }

  /** A stranded waiter is woken by nothing but a spurious wake-up, whatever is executed later. */
  lemma ForgottenForever(l: Limits, p: Pool, s: Step, c: Cond)
    requires Enabled(l, p, s) && Forgotten(p, c) && s != WakeWaiter(c)
    ensures Forgotten(Apply(l, p, s), c)
  {
    hide Register, Deregister, FirstFree, Count, AnyRunning;
    match s
    case Execute(_, _, _) => ExecuteForgotten(l, p, s, c);
    case WaitStart(d, names, timedOut) =>
      JoinForgotten(p, c, d, names);
      LookForgotten(Join(p, d, names), c, d, timedOut);
    case WaitAgain(d, timedOut) => LookForgotten(p, c, d, timedOut);
    case _ =>
  }

  lemma StrandedIsForgotten(l: Limits, p: Pool, c: Cond)
    requires Inv(l, p) && Stranded(p, c)
    ensures Forgotten(p, c)
  {
    var w := p.waiters[c];
    forall t | t in p.running ensures Count(p.running[t], c) == 0 {
      assert Count(p.running[t], c) == Expected(p.running[t].serial, p.waiters, t, c);
      assert t !in w.tickets;
    }
  }

  const ONE_THREAD := Limits(1, 1)

  /** The ticket that runs when the call starts, the one issued while it waits, and the call. */
  const FIRST: Entry := Entry(0, Some(0), [])
  const SECOND: Entry := Entry(1, None, [])
  const SLEEPER: Waiter := Waiter([1, 2], 1, true)

  const P1 := Pool(1, 1, {0}, {}, map[], [1], map[1 := Entry(0, None, [])], 1, [1], [], map[], map[])
  const P2 := Pool(1, 1, {0}, {}, map[], [1], map[1 := FIRST], 1, [1], [], map[0 := SLEEPER], map[])
  const P3 := Pool(1, 2, {0}, {}, map[], [1, 2], map[1 := FIRST, 2 := SECOND], 2, [1, 2], [], map[0 := SLEEPER], map[])
  const P4 := Pool(1, 2, {}, {}, map[0 := 1], [2], map[1 := FIRST, 2 := SECOND], 2, [1, 2], [1],
      map[0 := SLEEPER], map[])
  const P5 := Pool(1, 1, {}, {}, map[0 := 2], [], map[2 := SECOND], 2, [1, 2], [1, 2],
      map[0 := SLEEPER.(asleep := false)], map[])
  const P6 := Pool(1, 1, {}, {}, map[0 := 2], [], map[2 := SECOND], 2, [1, 2], [1, 2], map[0 := SLEEPER], map[])
  const P7 := Pool(1, 0, {}, {0}, map[], [], map[], 2, [1, 2], [1, 2], map[0 := SLEEPER], map[])

  ghost predicate Leads(p: Pool, s: Step, q: Pool) { Enabled(ONE_THREAD, p, s) && q == Apply(ONE_THREAD, p, s) }

  lemma Leads1() ensures Leads(EMPTY_POOL, Execute(0, 1, None), P1) { }
  lemma Leads2() ensures Leads(P1, WaitStart(0, [1, 2], false), P2) {
    assert [1, 2][..1] == [1] && [1][..0] == [];
    assert Register(P1.running, [], 0) == P1.running;
    assert Register(P1.running, [1], 0) == map[1 := FIRST];
    assert Register(P1.running, [1, 2], 0) == map[1 := FIRST];
    assert [1, 2][0] in P2.running;
  }
  lemma Leads3() ensures Leads(P2, Execute(1, 1, None), P3) { }
  lemma Leads4() ensures Leads(P3, Proceed(0), P4) { }
  lemma Leads5() ensures Leads(P4, Finish(0), P5) {
    var r := Release(P4, 0);
    assert r.running == map[2 := SECOND];
    assert r.executing == map[];
    assert r.waiters == map[0 := SLEEPER.(asleep := false)];
  }
  lemma Leads6() ensures Leads(P5, WaitAgain(0, false), P6) { assert [1, 2][1] in P5.running; }
  lemma Leads7() ensures Leads(P6, Finish(0), P7) {
    var r := Release(P6, 0);
    assert r.running == map[];
    assert r.executing == map[];
    assert r.waiters == map[0 := SLEEPER];
  }

  lemma RunLonger(states: seq<Pool>, steps: seq<Step>, s: Step, q: Pool)
    requires Run(ONE_THREAD, states, steps) && Leads(states[|steps|], s, q)
    ensures Run(ONE_THREAD, states + [q], steps + [s]) && (states + [q])[|steps| + 1] == q
  {
    hide Enabled, Apply;
    var longer, more := states + [q], steps + [s];
    forall i: nat | i < |more| ensures StepAt(ONE_THREAD, longer, more, i) {
      if i < |steps| { assert StepAt(ONE_THREAD, states, steps, i); }
    }
  }

  /** waitFor on a ticket that has not been issued yet can sleep for ever: no entry knows it when the task ends. */
  lemma UnissuedTicketStrands() returns (states: seq<Pool>, steps: seq<Step>)
    ensures Run(ONE_THREAD, states, steps) && Stranded(states[|steps|], 0)
  {
    hide Leads, Stranded;
    Leads1(); Leads2(); Leads3(); Leads4(); Leads5(); Leads6(); Leads7();
    LastIsStranded();
    states, steps := [EMPTY_POOL], [];
    RunLonger(states, steps, Execute(0, 1, None), P1);
    states, steps := states + [P1], steps + [Execute(0, 1, None)];
    RunLonger(states, steps, WaitStart(0, [1, 2], false), P2);
    states, steps := states + [P2], steps + [WaitStart(0, [1, 2], false)];
    RunLonger(states, steps, Execute(1, 1, None), P3);
    states, steps := states + [P3], steps + [Execute(1, 1, None)];
    RunLonger(states, steps, Proceed(0), P4);
    states, steps := states + [P4], steps + [Proceed(0)];
    RunLonger(states, steps, Finish(0), P5);
    states, steps := states + [P5], steps + [Finish(0)];
    RunLonger(states, steps, WaitAgain(0, false), P6);
    states, steps := states + [P6], steps + [WaitAgain(0, false)];
    RunLonger(states, steps, Finish(0), P7);
    states, steps := states + [P7], steps + [Finish(0)];
  }

  lemma LastIsStranded()
    ensures Stranded(P7, 0)
  {
  }
}
