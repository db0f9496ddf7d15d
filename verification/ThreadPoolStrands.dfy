/** Which calls of waitFor can be stranded: a construction of the run that does it, from any reachable state. */
module ThreadPoolStrands {
  import opened Options
  import opened ThreadPool
  import opened ThreadPoolTheorems

  /** The steps lead from p to q. */
  ghost predicate Reaches(l: Limits, p: Pool, steps: seq<Step>, q: Pool)
    decreases |steps|
  {
    if steps == [] then p == q
    else Enabled(l, p, steps[0]) && Reaches(l, Apply(l, p, steps[0]), steps[1..], q)
  }

  lemma {:induction false} ReachesThen(l: Limits, p: Pool, a: seq<Step>, q: Pool, b: seq<Step>, r: Pool)
    requires Reaches(l, p, a, q) && Reaches(l, q, b, r)
    ensures Reaches(l, p, a + b, r)
    decreases |a|
  {
    hide Enabled, Apply;
    if a == [] {
      assert a + b == b;
    } else {
      assert (a + b)[1..] == a[1..] + b && (a + b)[0] == a[0];
      ReachesThen(l, Apply(l, p, a[0]), a[1..], q, b, r);
    }
  }

  lemma ReachesOne(l: Limits, p: Pool, s: Step)
    requires Enabled(l, p, s)
    ensures Reaches(l, p, [s], Apply(l, p, s))
  {
    hide Enabled, Apply;
    assert [s][1..] == [];
    assert Reaches(l, Apply(l, p, s), [], Apply(l, p, s));
  }

  lemma {:induction false} ReachesKeeps(l: Limits, p: Pool, steps: seq<Step>, q: Pool)
    requires Inv(l, p) && Reaches(l, p, steps, q)
    ensures Inv(l, q)
    decreases |steps|
  {
    if steps != [] {
      hide Inv, Enabled, Apply;
      StepKeeps(l, p, steps[0]);
      ReachesKeeps(l, Apply(l, p, steps[0]), steps[1..], q);
    }
  }

  // ---------------------------------------------------------------------------------------
  // A call and its steps

  /** No step begins another call with the condition c. */
  predicate SameCall(steps: seq<Step>, c: Cond) {
    forall i | 0 <= i < |steps| :: !(steps[i].WaitStart? && steps[i].c == c)
  }

  /** The call with condition c goes on, with these tickets and since this time. */
  ghost predicate Waits(p: Pool, c: Cond, names: seq<Ticket>, since: nat) {
    c in p.waiters && p.waiters[c].tickets == names && p.waiters[c].since == since
  }

  lemma WaiterKept(l: Limits, p: Pool, s: Step, c: Cond)
    requires Enabled(l, p, s) && !(s.WaitStart? && s.c == c)
    ensures var q := Apply(l, p, s);
            c in q.waiters ==> c in p.waiters && Waits(q, c, p.waiters[c].tickets, p.waiters[c].since)
    ensures c in p.waiters && !(s.WaitAgain? && s.c == c) ==> c in Apply(l, p, s).waiters
  {
    hide FirstFree, TicketAt, Look, Join, Round, Release;
    match s
    case Execute(_, _, _) => SubmitFrame(l, p, s);
    case Proceed(tid) => RoundFrame(l, p, tid);
    case Finish(tid) =>
      ReleaseFrame(p, tid);
      RoundFrame(l, Release(p, tid), tid);
    case WaitStart(d, names, timedOut) =>
      JoinFrame(p, d, names);
      LookFrame(Join(p, d, names), d, timedOut);
    case WaitAgain(d, timedOut) => LookFrame(p, d, timedOut);
    case _ =>
  }

  lemma {:induction false} CallKept(l: Limits, p: Pool, steps: seq<Step>, q: Pool, c: Cond)
    requires Reaches(l, p, steps, q) && SameCall(steps, c) && c in q.waiters
    ensures c in p.waiters && Waits(q, c, p.waiters[c].tickets, p.waiters[c].since)
    decreases |steps|
  {
    if steps != [] {
      hide Enabled, Apply;
      assert forall i | 0 <= i < |steps[1..]| :: steps[1..][i] == steps[i + 1];
      CallKept(l, Apply(l, p, steps[0]), steps[1..], q, c);
      WaiterKept(l, p, steps[0], c);
    }
  }

  // ---------------------------------------------------------------------------------------
  // Submitting until a ticket is issued

  lemma {:induction false} Outside(s: set<nat>) returns (n: nat)
    ensures forall x <- s :: x < n
  {
    if s == {} {
      n := 0;
    } else {
      var x :| x in s;
      var m := Outside(s - {x});
      n := if m > x then m else x + 1;
      forall y <- s ensures y < n { assert y == x || y in s - {x}; }
    }
  }

  /** Below 2^32 - 1 submissions the next ticket is free. */
  lemma NextIsFree(l: Limits, p: Pool)
    requires Inv(l, p) && |p.submitted| + 1 < TICKETS
    ensures FirstFree(p.running, p.currTicket, 1) && TicketAt(p.currTicket, 1) == |p.submitted| + 1
  {
    var next := TicketAt(p.currTicket, 1);
    assert next == |p.submitted| + 1;
    assert next !in p.running;
  }

  /** Whatever thread it would create and whomever it wakes, submitting adds the next ticket. */
  lemma SubmitAdds(l: Limits, p: Pool, s: Step, t: Ticket)
    requires s.Execute? && Enabled(l, p, s) && TicketAt(p.currTicket, s.skip) == t
    ensures var q := Apply(l, p, s);
            && q.submitted == p.submitted + [t] && q.waiters == p.waiters
            && t in q.running && q.running[t].serial == |p.submitted|
  {
    hide FirstFree, TicketAt;
  }

  lemma SomeoneToNotify(p: Pool) returns (woken: Option<Tid>)
    ensures Notifies(p, woken)
  {
    woken := None;
    if w :| w in p.sleeping { woken := Some(w); }
  }

  lemma NewThread(p: Pool) returns (thread: Tid)
    ensures !Live(p, thread)
  {
    thread := Outside(p.awake + p.sleeping + p.executing.Keys);
  }

  lemma Submit(l: Limits, p: Pool) returns (s: Step)
    requires Inv(l, p) && |p.submitted| + 1 < TICKETS
    ensures Enabled(l, p, s) && s.Execute?
    ensures var q, t := Apply(l, p, s), |p.submitted| + 1;
            && q.submitted == p.submitted + [t] && q.waiters == p.waiters
            && t in q.running && q.running[t].serial == |p.submitted|
  {
    hide Inv, FirstFree, TicketAt, Apply, Notifies, Live;
    NextIsFree(l, p);
    var thread := NewThread(p);
    var woken := SomeoneToNotify(p);
    s := Execute(thread, 1, woken);
    SubmitAdds(l, p, s, |p.submitted| + 1);
  }

  /** Submitting goes on until ticket u is issued, while the call waits. */
  lemma {:induction false} IssueUpTo(l: Limits, p: Pool, u: Ticket, c: Cond) returns (steps: seq<Step>, q: Pool)
    requires Inv(l, p) && |p.submitted| < u
    ensures Reaches(l, p, steps, q) && SameCall(steps, c) && Inv(l, q)
    ensures |q.submitted| == u && q.waiters == p.waiters && u in q.running && q.running[u].serial == u - 1
    decreases u - |p.submitted|
  {
    hide Inv, Enabled, Apply;
    var s := Submit(l, p);
    var r := Apply(l, p, s);
    StepKeeps(l, p, s);
    ReachesOne(l, p, s);
    if |r.submitted| == u {
      steps, q := [s], r;
    } else {
      var more;
      more, q := IssueUpTo(l, r, u, c);
      steps := [s] + more;
      ReachesThen(l, p, [s], r, more, q);
    }
  }

  // ---------------------------------------------------------------------------------------
  // Letting all other tasks end

  /** Ticket u is the last one issued and is live; the call goes on. */
  ghost predicate LastIssued(p: Pool, u: Ticket, c: Cond, names: seq<Ticket>, since: nat) {
    && u in p.running && |p.submitted| == u && p.running[u].serial == u - 1
    && Waits(p, c, names, since)
  }

  function Work(p: Pool): nat { 2 * |p.queue| + |p.executing.Keys| }

  /** If the last ticket is executed, nothing is queued. */
  lemma LastTaken(l: Limits, p: Pool, u: Ticket, tid: Tid)
    requires Inv(l, p) && u in p.running && p.running[u].serial == |p.submitted| - 1
    requires tid in p.executing && p.executing[tid] == u
    ensures p.queue == []
  {
    assert p.submitted[|p.submitted| - 1] == u;
    assert u !in p.queue;
  }

  lemma FinishFields(l: Limits, p: Pool, tid: Tid)
    requires tid in p.executing
    ensures Enabled(l, p, Finish(tid))
    ensures var q := Apply(l, p, Finish(tid));
            && q.submitted == p.submitted && q.running == p.running - {p.executing[tid]}
            && |q.queue| == (if p.queue == [] then 0 else |p.queue| - 1)
            && |q.executing.Keys| == |p.executing.Keys| - (if p.queue == [] then 1 else 0)
  {
    var r := Release(p, tid);
    KeysRemove(p.executing, tid);
    assert |r.executing.Keys| == |p.executing.Keys| - 1;
    hide Release;
    RoundFields(l, r, tid);
  }

  lemma RoundFields(l: Limits, r: Pool, tid: Tid)
    requires tid !in r.executing
    ensures var q := Round(l, r, tid);
            && q.submitted == r.submitted && q.running == r.running
            && |q.queue| == (if r.queue == [] then 0 else |r.queue| - 1)
            && |q.executing.Keys| == |r.executing.Keys| + (if r.queue == [] then 0 else 1)
  {
    if r.queue != [] { KeysAdd(r.executing, tid, r.queue[0]); }
  }

  lemma FinishOther(l: Limits, p: Pool, u: Ticket, c: Cond, names: seq<Ticket>, since: nat, tid: Tid)
    requires Inv(l, p) && LastIssued(p, u, c, names, since) && tid in p.executing && p.executing[tid] != u
    ensures Enabled(l, p, Finish(tid))
    ensures var q := Apply(l, p, Finish(tid)); Inv(l, q) && LastIssued(q, u, c, names, since) && Work(q) < Work(p)
  {
    hide Inv, Apply, Enabled;
    FinishFields(l, p, tid);
    StepKeeps(l, p, Finish(tid));
    WaiterKept(l, p, Finish(tid), c);
  }

  lemma TakeNext(l: Limits, p: Pool, u: Ticket, c: Cond, names: seq<Ticket>, since: nat) returns (tid: Tid)
    requires l.maxThreads > 0 && Inv(l, p) && LastIssued(p, u, c, names, since) && p.executing == map[] && p.queue != []
    ensures Enabled(l, p, Proceed(tid))
    ensures var q := Apply(l, p, Proceed(tid)); Inv(l, q) && LastIssued(q, u, c, names, since) && Work(q) < Work(p)
  {
    assert p.awake != {};
    tid :| tid in p.awake;
    StepKeeps(l, p, Proceed(tid));
    WaiterKept(l, p, Proceed(tid), c);
    hide Inv;
    KeysAdd(p.executing, tid, p.queue[0]);
  }

  lemma OnlyLast(l: Limits, p: Pool, u: Ticket)
    requires Inv(l, p) && u in p.running && p.queue == [] && forall tid <- p.executing :: p.executing[tid] == u
    ensures p.running.Keys == {u} && exists tid :: tid in p.executing && p.executing[tid] == u
  {
  }

  /** Every task but the last ends, while the call waits. */
  lemma {:induction false} Drain(l: Limits, p: Pool, u: Ticket, c: Cond, names: seq<Ticket>, since: nat)
    returns (steps: seq<Step>, q: Pool, tid: Tid)
    requires l.maxThreads > 0 && Inv(l, p) && LastIssued(p, u, c, names, since)
    ensures Reaches(l, p, steps, q) && SameCall(steps, c) && Inv(l, q) && LastIssued(q, u, c, names, since)
    ensures q.running.Keys == {u} && tid in q.executing && q.executing[tid] == u
    decreases Work(p)
  {
    hide Inv, Enabled, Apply;
    steps, q := [], p;
    if other :| other in p.executing && p.executing[other] != u {
      FinishOther(l, p, u, c, names, since, other);
      steps, q, tid := DrainAfter(l, p, u, c, names, since, Finish(other));
    } else if p.queue != [] {
      if x :| x in p.executing {
        LastTaken(l, p, u, x);
        assert false;
      }
      assert p.executing == map[];
      var w := TakeNext(l, p, u, c, names, since);
      steps, q, tid := DrainAfter(l, p, u, c, names, since, Proceed(w));
    } else {
      OnlyLast(l, p, u);
      tid :| tid in p.executing && p.executing[tid] == u;
    }
  }

  lemma {:induction false} DrainAfter(l: Limits, p: Pool, u: Ticket, c: Cond, names: seq<Ticket>, since: nat, s: Step)
    returns (steps: seq<Step>, q: Pool, tid: Tid)
    requires l.maxThreads > 0 && (s.Finish? || s.Proceed?) && Enabled(l, p, s)
    requires var r := Apply(l, p, s); Inv(l, r) && LastIssued(r, u, c, names, since) && Work(r) < Work(p)
    ensures Reaches(l, p, steps, q) && SameCall(steps, c) && Inv(l, q) && LastIssued(q, u, c, names, since)
    ensures q.running.Keys == {u} && tid in q.executing && q.executing[tid] == u
    decreases Work(p), 0
  {
    hide Inv, Enabled, Apply, LastIssued;
    var r, more := Apply(l, p, s), [];
    more, q, tid := Drain(l, r, u, c, names, since);
    steps := [s] + more;
    ReachesOne(l, p, s);
    ReachesThen(l, p, [s], r, more, q);
  }

  // ---------------------------------------------------------------------------------------
  // The run that strands the call

  /** From where only the last ticket runs, the call goes to sleep and the ticket ends without a notification. */
  lemma EndLast(l: Limits, p: Pool, u: Ticket, c: Cond, names: seq<Ticket>, since: nat, tid: Tid)
    returns (steps: seq<Step>, q: Pool)
    requires Inv(l, p) && LastIssued(p, u, c, names, since) && since < u && u in names
    requires p.running.Keys == {u} && tid in p.executing && p.executing[tid] == u
    ensures Reaches(l, p, steps, q) && SameCall(steps, c) && Stranded(q, c) && q.submitted == p.submitted
  {
    hide Inv, Apply, Enabled, Stranded;
    var r;
    steps, r := FallAsleep(l, p, u, c, names, since);
    var s := Finish(tid);
    FinishFields(l, r, tid);
    LastStrands(l, r, u, c, names, since, tid);
    q := Apply(l, r, s);
    ReachesOne(l, r, s);
    ReachesThen(l, p, steps, r, [s], q);
    steps := steps + [s];
  }

  /** The call looks once more, unless it sleeps, and sleeps because u runs. */
  lemma FallAsleep(l: Limits, p: Pool, u: Ticket, c: Cond, names: seq<Ticket>, since: nat)
    returns (steps: seq<Step>, r: Pool)
    requires Inv(l, p) && LastIssued(p, u, c, names, since) && u in names
    ensures Reaches(l, p, steps, r) && SameCall(steps, c) && Inv(l, r) && LastIssued(r, u, c, names, since)
    ensures r.waiters[c].asleep && r.running == p.running && r.executing == p.executing && r.submitted == p.submitted
  {
    hide Inv, Deregister;
    steps, r := [], p;
    if !p.waiters[c].asleep {
      NamedRuns(p.running, names, u);
      steps := [WaitAgain(c, false)];
      r := Apply(l, p, steps[0]);
      ReachesOne(l, p, steps[0]);
      StepKeeps(l, p, steps[0]);
    }
  }

  lemma NamedRuns(running: map<Ticket, Entry>, names: seq<Ticket>, u: Ticket)
    requires u in names && u in running
    ensures AnyRunning(running, names)
  {
    var i :| 0 <= i < |names| && names[i] == u;
    assert names[i] in running;
  }

  lemma LastStrands(l: Limits, r: Pool, u: Ticket, c: Cond, names: seq<Ticket>, since: nat, tid: Tid)
    requires Inv(l, r) && LastIssued(r, u, c, names, since) && since < u && u in names && r.waiters[c].asleep
    requires r.running.Keys == {u} && tid in r.executing && r.executing[tid] == u
    ensures Enabled(l, r, Finish(tid)) && Stranded(Apply(l, r, Finish(tid)), c)
  {
    hide Inv, Apply;
    NamedRuns(r.running, names, u);
    assert LastUnregistered(r, tid, c);
    StrandsExactly(l, r, Finish(tid), c);
  }

  lemma BeginWait(l: Limits, p: Pool, c: Cond, names: seq<Ticket>)
    requires Inv(l, p) && c !in p.waiters
    ensures var s := WaitStart(c, names, false);
            && Enabled(l, p, s) && Inv(l, Apply(l, p, s)) && Apply(l, p, s).submitted == p.submitted
            && (AnyRunning(p.running, names) ==> Waits(Apply(l, p, s), c, names, |p.submitted|))
            && (!AnyRunning(p.running, names) ==> c !in Apply(l, p, s).waiters)
  {
    hide Inv, Register, Deregister, AnyRunning;
    StepKeeps(l, p, WaitStart(c, names, false));
    var j := Join(p, c, names);
    SameRunning(p.running, j.running, names);
    hide Join;
    LookFields(j, c);
  }

  lemma LookFields(j: Pool, c: Cond)
    requires c in j.waiters
    ensures var q, w := Look(j, c, false), j.waiters[c];
            && q.submitted == j.submitted
            && (AnyRunning(j.running, w.tickets) ==> Waits(q, c, w.tickets, w.since))
            && (!AnyRunning(j.running, w.tickets) ==> c !in q.waiters)
  {
    hide Deregister, AnyRunning;
  }

  lemma SameRunning(a: map<Ticket, Entry>, b: map<Ticket, Entry>, names: seq<Ticket>)
    requires a.Keys == b.Keys
    ensures AnyRunning(a, names) <==> AnyRunning(b, names)
  {
  }

  /** A call that names a ticket not issued yet, beside one that runs, can be stranded. */
  lemma UnissuedStrands(l: Limits, p: Pool, c: Cond, names: seq<Ticket>, u: Ticket) returns (steps: seq<Step>, q: Pool)
    requires l.maxThreads > 0 && Inv(l, p) && c !in p.waiters && AnyRunning(p.running, names)
    requires u in names && |p.submitted| < u
    ensures Reaches(l, p, [WaitStart(c, names, false)] + steps, q) && SameCall(steps, c)
    ensures Stranded(q, c) && |q.submitted| < TICKETS
  {
    hide Inv, Enabled, Apply, AnyRunning, Stranded;
    var start := WaitStart(c, names, false);
    BeginWait(l, p, c, names);
    ReachesOne(l, p, start);
    var p0 := Apply(l, p, start);
    var a, p1 := IssueUpTo(l, p0, u, c);
    var b, p2, tid := Drain(l, p1, u, c, names, |p.submitted|);
    var d, p3 := EndLast(l, p2, u, c, names, |p.submitted|, tid);
    ReachesThen(l, p1, b, p2, d, p3);
    ReachesThen(l, p0, a, p1, b + d, p3);
    ReachesThen(l, p, [start], p0, a + (b + d), p3);
    steps, q := a + (b + d), p3;
  }

  /** The run of one call: it begins, and below 2^32 submissions ends stranded. */
  ghost predicate Strands(l: Limits, p: Pool, c: Cond, names: seq<Ticket>, steps: seq<Step>, q: Pool) {
    && Reaches(l, p, [WaitStart(c, names, false)] + steps, q) && SameCall(steps, c)
    && Stranded(q, c) && |q.submitted| < TICKETS
  }

  lemma StrandedAnticipates(l: Limits, q: Pool, c: Cond)
    requires Inv(l, q) && Stranded(q, c)
    ensures Anticipates(q.submitted, q.waiters[c])
  {
    NotCovered(q.running, q.waiters[c], c);
  }

  lemma NotCovered(running: map<Ticket, Entry>, w: Waiter, c: Cond)
    requires !AnyRunning(running, w.tickets)
    ensures !Covered(running, w, c)
  {
    forall t | t in w.tickets ensures t !in running {
      var i :| 0 <= i < |w.tickets| && w.tickets[i] == t;
    }
  }

  /** A stranded call ran beside a live ticket and named one that was not issued when it began. */
  lemma StrandedNamedUnissued(l: Limits, p: Pool, c: Cond, names: seq<Ticket>, steps: seq<Step>, q: Pool)
    requires Inv(l, p) && c !in p.waiters && Strands(l, p, c, names, steps, q)
    ensures AnyRunning(p.running, names) && exists u | u in names :: u > |p.submitted|
  {
    var start := WaitStart(c, names, false);
    BeginWait(l, p, c, names);
    var all := [start] + steps;
    assert all[0] == start && all[1..] == steps;
    var r := Apply(l, p, start);
    assert Reaches(l, r, steps, q);
    hide Enabled, Apply, AnyRunning;
    CallKept(l, r, steps, q, c);
    ReachesKeeps(l, r, steps, q);
    StrandedAnticipates(l, q, c);
    var k :| |p.submitted| <= k < |q.submitted| && q.submitted[k] in names;
    assert q.submitted[k] == k + 1;
  }

  /**
   * As long as fewer than 2^32 tasks are submitted, a call of waitFor without a time limit can be stranded
   * if and only if one of its tickets runs and another one has not been issued yet.
   */
  lemma StrandableExactly(l: Limits, p: Pool, c: Cond, names: seq<Ticket>)
    requires l.maxThreads > 0 && Inv(l, p) && c !in p.waiters
    ensures (exists steps, q :: Strands(l, p, c, names, steps, q)) <==>
            AnyRunning(p.running, names) && exists u | u in names :: u > |p.submitted|
  {
    hide Inv, AnyRunning;
    if steps, q :| Strands(l, p, c, names, steps, q) {
      StrandedNamedUnissued(l, p, c, names, steps, q);
    }
    if u :| AnyRunning(p.running, names) && u in names && u > |p.submitted| {
      var steps, q := UnissuedStrands(l, p, c, names, u);
      assert Strands(l, p, c, names, steps, q);
    }
  }
}
