/** CThreadPool's methods on its own fields; each method body is what runs under one hold of the mutex. */
module ThreadPoolObject {
  import opened Options
  import opened ThreadPool

  class CThreadPool {
    const limits: Limits
    var nThreads: int
    var nRunning: int
    var toExecute: seq<Ticket>
    var running: map<Ticket, Entry>
    var currTicket: Ticket
    ghost var awake: set<Tid>
    ghost var sleeping: set<Tid>
    ghost var executing: map<Tid, Ticket>
    /** Every ticket issued so far; entries record their place in it. */
    var submitted: seq<Ticket>
    ghost var taken: seq<Ticket>
    ghost var waiters: map<Cond, Waiter>
    ghost var answers: map<Cond, bool>

    ghost function State(): Pool
      reads this
    {
      Pool(nThreads, nRunning, awake, sleeping, executing, toExecute, running, currTicket, submitted, taken, waiters,
           answers)
    }

    ghost predicate Valid()
      reads this
    {
      Inv(limits, State())
    }

    constructor (l: Limits)
      ensures limits == l && State() == EMPTY_POOL && Valid()
    {
      limits := l;
      nThreads, nRunning, toExecute, running, currTicket := 0, 0, [], map[], 0;
      awake, sleeping, executing, submitted, taken, waiters, answers := {}, {}, map[], [], [], map[], map[];
    }

    /** Submits a task; at most 2^32 - 2 tickets may be live, or the search for a free one would not end. */
    method Execute(ghost thread: Tid, ghost woken: Option<Tid>) returns (t: Ticket, ghost skip: nat)
      requires Valid() && !Live(State(), thread) && Notifies(State(), woken) && |running| < TICKETS - 1
      modifies this
      ensures Valid()
      ensures Enabled(limits, old(State()), Step.Execute(thread, skip, woken))
      ensures State() == Apply(limits, old(State()), Step.Execute(thread, skip, woken))
      ensures t == currTicket && t != ILLEGAL_TICKET && t in running && t !in old(running)
    {
      hide Inv, FirstFree, TicketAt;
      ghost var before := State();
      if nThreads >= nRunning && nThreads - nRunning == 0 && nThreads < limits.maxThreads {
        nThreads := nThreads + 1;
        awake := awake + {thread};
      }
      assert State() == Spawn(limits, before, thread);
      skip := Enqueue();
      t := currTicket;
      if woken.Some? {
        sleeping, awake := sleeping - {woken.value}, awake + {woken.value};
      }
      StepKeeps(limits, before, Step.Execute(thread, skip, woken));
    }

    /** The second half of execute: find a ticket and queue the task under it. */
    method Enqueue() returns (ghost skip: nat)
      requires |running| < TICKETS - 1
      modifies this`toExecute, this`running, this`nRunning, this`currTicket, this`submitted
      ensures FirstFree(old(running), old(currTicket), skip)
      ensures State() == ThreadPool.Enqueue(old(State()), TicketAt(old(currTicket), skip))
      ensures currTicket == TicketAt(old(currTicket), skip) && currTicket != ILLEGAL_TICKET
      ensures currTicket !in old(running) && currTicket in running
    {
      hide FirstFree, TicketAt;
      var d := PickTicket(running, currTicket);
      FirstFreeIsFree(running, currTicket, d);
      currTicket := TicketAt(currTicket, d);
      toExecute := toExecute + [currTicket];
      running := running[currTicket := Entry(|submitted|, None, [])];
      nRunning := nRunning + 1;
      submitted := submitted + [currTicket];
      skip := d;
    }

    /**
     * getRunnable up to its next wait or its return; the result is the ticket taken, or none when the thread stops
     * or sleeps.
     */
    method GetRunnable(tid: Tid, ended: Option<Ticket>) returns (ticket: Option<Ticket>, stop: bool)
      requires Valid()
      requires if ended.Some? then tid in executing && executing[tid] == ended.value else tid in awake
      modifies this
      ensures Valid()
      ensures var s := if ended.Some? then Finish(tid) else Proceed(tid);
              Enabled(limits, old(State()), s) && State() == Apply(limits, old(State()), s)
      ensures ticket.Some? ==> tid in executing && executing[tid] == ticket.value
      ensures ticket.None? ==> (stop <==> !Live(State(), tid)) && (!stop <==> tid in sleeping)
    {
      hide Inv, ThreadPool.Round, Release;
      ghost var before := State();
      ThreadApart(limits, before, tid);
      if ended.Some? {
        TaskEnded(tid, ended.value);
      }
      ticket, stop := Round(tid);
      StepKeeps(limits, before, if ended.Some? then Finish(tid) else Proceed(tid));
    }

    /** The part of getRunnable that runs under del. */
    method TaskEnded(ghost tid: Tid, ended: Ticket)
      requires tid in executing && executing[tid] == ended
      modifies this`nRunning, this`waiters, this`running, this`executing, this`awake
      ensures State() == Release(old(State()), tid)
    {
      nRunning := nRunning - 1;
      ghost var t := ended;
      waiters := map c | c in waiters ::
        if t in running && Count(running[t], c) > 0 then waiters[c].(asleep := false) else waiters[c];
      if ended in running {
        running := running - {ended};
      }
      executing, awake := executing - {tid}, awake + {tid};
      assert running == old(running) - {ended};
    }

    /** One round of getRunnable's loop. */
    method Round(ghost tid: Tid) returns (ticket: Option<Ticket>, stop: bool)
      requires tid in awake && tid !in sleeping && tid !in executing
      modifies this`nThreads, this`toExecute, this`awake, this`sleeping, this`executing, this`taken
      ensures State() == ThreadPool.Round(limits, old(State()), tid)
      ensures ticket.Some? ==> tid in executing && executing[tid] == ticket.value
      ensures ticket.None? ==> (stop <==> !Live(State(), tid)) && (!stop <==> tid in sleeping)
    {
      ticket, stop := None, false;
      if |toExecute| == 0 {
        awake := awake - {tid};
        if nThreads >= nRunning && nThreads - nRunning > limits.maxWaiting {
          nThreads := nThreads - 1;
          stop := true;
        } else {
          sleeping := sleeping + {tid};
        }
      } else {
        ticket := Some(toExecute[0]);
        executing, awake, taken := executing[tid := toExecute[0]], awake - {tid}, taken + [toExecute[0]];
        toExecute := toExecute[1..];
      }
    }

    /** waitFor up to its first wait or its return. */
    method WaitBegin(c: Cond, names: seq<Ticket>, timedOut: bool) returns (outcome: Outcome)
      requires Valid() && c !in waiters
      modifies this
      ensures Valid() && Enabled(limits, old(State()), WaitStart(c, names, timedOut))
      ensures State() == Apply(limits, old(State()), WaitStart(c, names, timedOut))
      ensures outcome.Returns? ==> (outcome.done <==> forall t | t in names :: t !in old(running))
      ensures outcome.Returns? && !outcome.done ==> timedOut
      ensures outcome.Sleeps? ==> !timedOut && exists t :: t in names && t in old(running)
    {
      ghost var before := State();
      RegisterNone(running, c);
      hide Inv, Register;
      var i := 0;
      assert names[..i] == [];
      while i < |names|
        invariant i <= |names|
        invariant State() == before.(running := Register(before.running, names[..i], c))
      {
        RegisterStep(before.running, names, c, i);
        if names[i] in running { running := running[names[i] := AddCond(running[names[i]], c)]; }
        i := i + 1;
      }
      assert names[..i] == names;
      waiters := waiters[c := Waiter(names, |submitted|, false)];
      JoinKeeps(limits, before, c, names);
      outcome := WaitRound(c, names, timedOut);
    }

    /** The end of waitFor: its condition is taken out of every entry it is registered with. */
    method Leave(c: Cond, names: seq<Ticket>)
      modifies this`running
      ensures running == Deregister(old(running), names, c)
    {
      RegisterNone(running, c);
      hide Deregister;
      var i := 0;
      assert names[..i] == [];
      while i < |names|
        invariant i <= |names|
        invariant running == Deregister(old(running), names[..i], c)
      {
        DeregisterStep(old(running), names, c, i);
        if names[i] in running { running := running[names[i] := RemoveCond(running[names[i]], c)]; }
        i := i + 1;
      }
      assert names[..i] == names;
    }

    /** One round of waitFor's loop, and its end when the loop ends. */
    method WaitRound(c: Cond, names: seq<Ticket>, timedOut: bool) returns (outcome: Outcome)
      requires Valid() && c in waiters && !waiters[c].asleep && waiters[c].tickets == names
      modifies this
      ensures Valid() && State() == Apply(limits, old(State()), WaitAgain(c, timedOut))
      ensures outcome.Returns? ==> (outcome.done <==> forall t | t in names :: t !in old(running))
      ensures outcome.Returns? && !outcome.done ==> timedOut
      ensures outcome.Sleeps? ==> !timedOut && exists t :: t in names && t in old(running)
    {
      ghost var before := State();
      RegisterNone(running, c);
      hide Inv, Deregister;
      LookKeeps(limits, before, c, timedOut);
      var r, i := false, 0;
      while i < |names| && !r
        invariant i <= |names| && (r <==> AnyRunning(running, names[..i]))
        invariant State() == before
        decreases |names| - i
      {
        AnyRunningStep(running, names, i);
        r := names[i] in running;
        i := i + 1;
      }
      AnyRunningPrefix(running, names, i);
      outcome := if !r then Returns(true) else if timedOut then Returns(false) else Sleeps;
      if outcome.Sleeps? {
        waiters := waiters[c := waiters[c].(asleep := true)];
      } else {
        Leave(c, names);
        waiters, answers := waiters - {c}, answers[c := outcome.done];
      }
    }
  }

  lemma RegisterNone(running: map<Ticket, Entry>, c: Cond)
    ensures Register(running, [], c) == running == Deregister(running, [], c)
  {
  }

  lemma RegisterStep(running: map<Ticket, Entry>, names: seq<Ticket>, c: Cond, i: nat)
    requires i < |names|
    ensures var r := Register(running, names[..i], c);
            Register(running, names[..i + 1], c) == if names[i] in r then r[names[i] := AddCond(r[names[i]], c)] else r
  {
    assert names[..i + 1][..i] == names[..i];
  }

  lemma DeregisterStep(running: map<Ticket, Entry>, names: seq<Ticket>, c: Cond, i: nat)
    requires i < |names|
    ensures var r := Deregister(running, names[..i], c);
            Deregister(running, names[..i + 1], c) ==
            if names[i] in r then r[names[i] := RemoveCond(r[names[i]], c)] else r
  {
    assert names[..i + 1][..i] == names[..i];
  }

  lemma AnyRunningStep(running: map<Ticket, Entry>, names: seq<Ticket>, i: nat)
    requires i < |names| && !AnyRunning(running, names[..i])
    ensures AnyRunning(running, names[..i + 1]) <==> names[i] in running
  {
    var s := names[..i + 1];
    assert s[i] == names[i];
    forall k | 0 <= k < i ensures s[k] !in running { assert names[..i][k] == s[k]; }
  }

  lemma AnyRunningPrefix(running: map<Ticket, Entry>, names: seq<Ticket>, i: nat)
    requires i <= |names| && (i == |names| || AnyRunning(running, names[..i]))
    ensures AnyRunning(running, names[..i]) <==> AnyRunning(running, names)
  {
    if i == |names| { assert names[..i] == names; }
    else {
      var k :| 0 <= k < |names[..i]| && names[..i][k] in running;
      assert names[k] in running;
    }
  }

  lemma ThreadApart(l: Limits, p: Pool, tid: Tid)
    requires Inv(l, p)
    ensures tid in p.awake ==> tid !in p.sleeping && tid !in p.executing
    ensures tid in p.executing ==> (
              tid in Release(p, tid).awake && tid !in Release(p, tid).sleeping && tid !in Release(p, tid).executing)
  {
  }
}
