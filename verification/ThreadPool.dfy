/**
 * CThreadPool as a transition system. Each step is what one thread does while it holds the pool's
 * mutex; between two steps any other thread may run. Runs end before Shutdown.
 */
module ThreadPool {
  import opened Options

  type Ticket = x: int | 0 <= x < 0x1_0000_0000
  const TICKETS: int := 0x1_0000_0000
  const ILLEGAL_TICKET: Ticket := 0

  type Tid = nat
  type Cond = nat

  datatype Limits = Limits(maxThreads: nat, maxWaiting: nat)

  /** SRunningConds, with the number of tasks that were submitted before this one. */
  datatype Entry = Entry(serial: nat, cond: Option<Cond>, conds: seq<Cond>)

  /** A call of waitFor: its tickets, how many tasks had been submitted when it began, and whether it sleeps. */
  datatype Waiter = Waiter(tickets: seq<Ticket>, since: nat, asleep: bool)

  /**
   * awake: threads in getRunnable or about to enter it for the first time; sleeping: threads in
   * cond->wait that were not notified; executing: threads that run a task; answers: what the calls of
   * waitFor that have returned gave back, by condition.
   */
  datatype Pool = Pool(
    nThreads: int, nRunning: int,
    awake: set<Tid>, sleeping: set<Tid>, executing: map<Tid, Ticket>,
    queue: seq<Ticket>, running: map<Ticket, Entry>, currTicket: Ticket,
    submitted: seq<Ticket>, taken: seq<Ticket>, waiters: map<Cond, Waiter>, answers: map<Cond, bool>)

  const EMPTY_POOL := Pool(0, 0, {}, {}, map[], [], map[], 0, [], [], map[], map[])

  // ---------------------------------------------------------------------------------------
  // Registering and deregistering a waiter's condition

  function Count(e: Entry, c: Cond): nat {
    (if e.cond == Some(c) then 1 else 0) + multiset(e.conds)[c]
  }

  function AddCond(e: Entry, c: Cond): Entry {
    if e.cond.None? then e.(cond := Some(c)) else e.(conds := e.conds + [c])
  }

  function IndexOf(s: seq<Cond>, c: Cond): (i: nat)
    requires c in s
    ensures i < |s| && s[i] == c
  {
    if s[0] == c then 0 else 1 + IndexOf(s[1..], c)
  }

  function RemoveCond(e: Entry, c: Cond): Entry {
    if e.cond == Some(c) then e.(cond := None)
    else if c in e.conds then
      var i := IndexOf(e.conds, c);
      e.(conds := e.conds[..i] + e.conds[i + 1..])
    else e
  }

  lemma AddCondCounts(e: Entry, c: Cond, d: Cond)
    ensures Count(AddCond(e, c), d) == Count(e, d) + (if d == c then 1 else 0)
  {
  }

  lemma RemoveCondCounts(e: Entry, c: Cond, d: Cond)
    ensures Count(RemoveCond(e, c), d) == Count(e, d) - (if d == c && Count(e, c) > 0 then 1 else 0)
  {
    if e.cond != Some(c) && c in e.conds {
      var i := IndexOf(e.conds, c);
      assert e.conds == e.conds[..i] + [c] + e.conds[i + 1..];
    }
  }

  /** The first loop of waitFor. */
  function Register(running: map<Ticket, Entry>, tickets: seq<Ticket>, c: Cond): (r: map<Ticket, Entry>)
    ensures r.Keys == running.Keys
  {
    if tickets == [] then running
    else
      var n := |tickets| - 1;
      var r := Register(running, tickets[..n], c);
      if tickets[n] in r then r[tickets[n] := AddCond(r[tickets[n]], c)] else r
  }

  /** The last loop of waitFor. */
  function Deregister(running: map<Ticket, Entry>, tickets: seq<Ticket>, c: Cond): (r: map<Ticket, Entry>)
    ensures r.Keys == running.Keys
  {
    if tickets == [] then running
    else
      var n := |tickets| - 1;
      var r := Deregister(running, tickets[..n], c);
      if tickets[n] in r then r[tickets[n] := RemoveCond(r[tickets[n]], c)] else r
  }

  lemma {:induction false} RegisterCounts(running: map<Ticket, Entry>, tickets: seq<Ticket>, c: Cond, t: Ticket,
      d: Cond)
    requires t in running
    ensures Register(running, tickets, c)[t].serial == running[t].serial
    ensures Count(Register(running, tickets, c)[t], d) ==
            Count(running[t], d) + (if d == c then multiset(tickets)[t] else 0)
  {
    if tickets != [] {
      var n := |tickets| - 1;
      assert tickets == tickets[..n] + [tickets[n]];
      RegisterCounts(running, tickets[..n], c, t, d);
      AddCondCounts(Register(running, tickets[..n], c)[t], c, d);
    }
  }

  lemma {:induction false} DeregisterCounts(running: map<Ticket, Entry>, tickets: seq<Ticket>, c: Cond, t: Ticket,
      d: Cond)
    requires t in running
    ensures Deregister(running, tickets, c)[t].serial == running[t].serial
    ensures d != c ==> Count(Deregister(running, tickets, c)[t], d) == Count(running[t], d)
    ensures d == c && Count(running[t], c) <= multiset(tickets)[t] ==> Count(Deregister(running, tickets, c)[t], c) == 0
    ensures d == c && Count(running[t], c) > multiset(tickets)[t] ==> (
              Count(Deregister(running, tickets, c)[t], c) == Count(running[t], c) - multiset(tickets)[t])
  {
    if tickets != [] {
      var n := |tickets| - 1;
      assert tickets == tickets[..n] + [tickets[n]];
      DeregisterCounts(running, tickets[..n], c, t, d);
      RemoveCondCounts(Deregister(running, tickets[..n], c)[t], c, d);
    }
  }

  // ---------------------------------------------------------------------------------------
  // Tickets

  predicate FreeTicket(running: map<Ticket, Entry>, t: Ticket) { t !in running && t != ILLEGAL_TICKET }

  function TicketAt(curr: Ticket, d: nat): Ticket { (curr + d) % TICKETS }

  /** The d-th ticket after curr is the first free one. */
  predicate FirstFree(running: map<Ticket, Entry>, curr: Ticket, d: nat) {
    && 1 <= d <= TICKETS && FreeTicket(running, TicketAt(curr, d))
    && forall e | 1 <= e < d :: !FreeTicket(running, TicketAt(curr, e))
  }

  lemma TicketsDistinct(curr: Ticket, d: nat, e: nat)
    requires d < e < d + TICKETS
    ensures TicketAt(curr, d) != TicketAt(curr, e)
  {
  }

  /** The loop of execute that looks for a free ticket; it ends unless every ticket is taken. */
  method PickTicket(running: map<Ticket, Entry>, curr: Ticket) returns (d: nat)
    requires |running| < TICKETS - 1
    ensures FirstFree(running, curr, d)
  {
    d := 1;
    ghost var passed: set<Ticket> := {};
    while TicketAt(curr, d) in running || TicketAt(curr, d) == ILLEGAL_TICKET
      invariant 1 <= d && |passed| == d - 1 && passed <= running.Keys + {ILLEGAL_TICKET}
      invariant passed == set e | 1 <= e < d :: TicketAt(curr, e)
      invariant d <= |running| + 2
      decreases |running| + 2 - d
    {
      SubsetSize(passed, running.Keys + {ILLEGAL_TICKET});
      assert TicketAt(curr, d) !in passed by {
        forall e | 1 <= e < d ensures TicketAt(curr, e) != TicketAt(curr, d) { TicketsDistinct(curr, e, d); }
      }
      passed := passed + {TicketAt(curr, d)};
      d := d + 1;
      SubsetSize(passed, running.Keys + {ILLEGAL_TICKET});
    }
    forall e | 1 <= e < d ensures !FreeTicket(running, TicketAt(curr, e)) {
      assert TicketAt(curr, e) in passed;
    }
  }

  lemma {:induction false} SubsetSize<T>(a: set<T>, b: set<T>)
    requires a <= b
    ensures |a| <= |b|
  {
    if a != {} {
      var x :| x in a;
      SubsetSize(a - {x}, b - {x});
    }
  }

  // ---------------------------------------------------------------------------------------
  // Steps

  datatype Step =
    /**
     * execute: thread is the thread it would create, skip how far it searches for a ticket, woken whom notify_one
     * wakes.
     */
    | Execute(thread: Tid, skip: nat, woken: Option<Tid>)
    /** An awake thread goes once through the loop of getRunnable. */
    | Proceed(tid: Tid)
    /** A thread whose task has returned calls getRunnable. */
    | Finish(tid: Tid)
    /** cond->wait returns although nobody notified. */
    | WakeIdle(tid: Tid)
    /** waitFor with the fresh condition c, up to its first wait or to its end. */
    | WaitStart(c: Cond, names: seq<Ticket>, timedOut: bool)
    /** waitFor goes once more through its loop. */
    | WaitAgain(c: Cond, timedOut: bool)
    /** The wait of waitFor returns although nobody notified. */
    | WakeWaiter(c: Cond)

  predicate Live(p: Pool, tid: Tid) { tid in p.awake || tid in p.sleeping || tid in p.executing }

  /** What notify_one may do: wake one sleeper, or nobody when nobody sleeps. */
  predicate Notifies(p: Pool, woken: Option<Tid>) {
    if p.sleeping == {} then woken.None? else woken.Some? && woken.value in p.sleeping
  }

  predicate MustSpawn(l: Limits, p: Pool) { p.nThreads == p.nRunning && p.nThreads < l.maxThreads }

  predicate Enabled(l: Limits, p: Pool, s: Step) {
    match s
    case Execute(thread, skip, woken) =>
      !Live(p, thread) && FirstFree(p.running, p.currTicket, skip) && Notifies(p, woken)
    case Proceed(tid) => tid in p.awake
    case Finish(tid) => tid in p.executing
    case WakeIdle(tid) => tid in p.sleeping
    case WaitStart(c, _, _) => c !in p.waiters
    case WaitAgain(c, _) => c in p.waiters && !p.waiters[c].asleep
    case WakeWaiter(c) => c in p.waiters && p.waiters[c].asleep
  }

  function Spawn(l: Limits, p: Pool, thread: Tid): Pool {
    if MustSpawn(l, p) then p.(nThreads := p.nThreads + 1, awake := p.awake + {thread}) else p
  }

  function Wake(p: Pool, tid: Tid): Pool {
    p.(sleeping := p.sleeping - {tid}, awake := p.awake + {tid})
  }

  function Enqueue(p: Pool, t: Ticket): Pool {
    p.(currTicket := t, queue := p.queue + [t], running := p.running[t := Entry(|p.submitted|, None, [])],
       nRunning := p.nRunning + 1, submitted := p.submitted + [t])
  }

  /** One round of getRunnable's loop: take the oldest task, or end the thread, or sleep. */
  function Round(l: Limits, p: Pool, tid: Tid): Pool {
    if p.queue != [] then
      p.(queue := p.queue[1..], awake := p.awake - {tid}, executing := p.executing[tid := p.queue[0]],
         taken := p.taken + [p.queue[0]])
    else if p.nThreads >= p.nRunning && p.nThreads - p.nRunning > l.maxWaiting then
      p.(nThreads := p.nThreads - 1, awake := p.awake - {tid})
    else
      p.(awake := p.awake - {tid}, sleeping := p.sleeping + {tid})
  }

  /** The part of getRunnable under del: notify whoever waits for the ticket, and forget it. */
  function Release(p: Pool, tid: Tid): Pool
    requires tid in p.executing
  {
    var t := p.executing[tid];
    p.(nRunning := p.nRunning - 1, executing := p.executing - {tid}, awake := p.awake + {tid},
       running := p.running - {t},
       waiters := map c | c in p.waiters ::
         if t in p.running && Count(p.running[t], c) > 0 then p.waiters[c].(asleep := false) else p.waiters[c])
  }

  predicate AnyRunning(running: map<Ticket, Entry>, names: seq<Ticket>) {
    exists i | 0 <= i < |names| :: names[i] in running
  }

  datatype Outcome = Sleeps | Returns(done: bool)

  /** What waitFor does after one round of its loop. */
  function WaitOutcome(p: Pool, names: seq<Ticket>, timedOut: bool): Outcome {
    if !AnyRunning(p.running, names) then Returns(true) else if timedOut then Returns(false) else Sleeps
  }

  function Look(p: Pool, c: Cond, timedOut: bool): Pool
    requires c in p.waiters
  {
    var w := p.waiters[c];
    match WaitOutcome(p, w.tickets, timedOut)
    case Sleeps => p.(waiters := p.waiters[c := w.(asleep := true)])
    case Returns(done) =>
      p.(waiters := p.waiters - {c}, running := Deregister(p.running, w.tickets, c), answers := p.answers[c := done])
  }

  function Join(p: Pool, c: Cond, names: seq<Ticket>): Pool {
    p.(waiters := p.waiters[c := Waiter(names, |p.submitted|, false)], running := Register(p.running, names, c))
  }

  function Apply(l: Limits, p: Pool, s: Step): Pool
    requires Enabled(l, p, s)
  {
    match s
    case Execute(thread, skip, woken) =>
      var q := Enqueue(Spawn(l, p, thread), TicketAt(p.currTicket, skip));
      if woken.Some? then Wake(q, woken.value) else q
    case Proceed(tid) => Round(l, p, tid)
    case Finish(tid) => Round(l, Release(p, tid), tid)
    case WakeIdle(tid) => Wake(p, tid)
    case WaitStart(c, names, timedOut) => Look(Join(p, c, names), c, timedOut)
    case WaitAgain(c, timedOut) => Look(p, c, timedOut)
    case WakeWaiter(c) => p.(waiters := p.waiters[c := p.waiters[c].(asleep := false)])
  }

  // ---------------------------------------------------------------------------------------
  // What every state keeps

  /** The counters and limits; busy are the executing threads and queued is the number of waiting tasks. */
  ghost predicate Threads(l: Limits, nThreads: int, nRunning: int, awake: set<Tid>, sleeping: set<Tid>, busy: set<Tid>,
      queued: nat) {
    && awake !! sleeping && awake !! busy && sleeping !! busy
    && nThreads == |awake| + |sleeping| + |busy|
    && nThreads <= l.maxThreads
    && (nThreads >= nRunning || nThreads >= l.maxThreads)
    && |sleeping| <= l.maxWaiting
    && (sleeping == {} || |awake| >= queued)
  }

  /** A ticket is live while it is queued, once, or executed, by one thread. */
  ghost predicate Tasks(queue: seq<Ticket>, executing: map<Tid, Ticket>, live: set<Ticket>) {
    && (forall i | 0 <= i < |queue| :: queue[i] in live)
    && (forall i, j | 0 <= i < j < |queue| :: queue[i] != queue[j])
    && (forall tid <- executing :: executing[tid] in live && executing[tid] !in queue)
    && (forall tid, other | tid in executing && other in executing ::
          executing[tid] == executing[other] ==> tid == other)
    && (forall t <- live :: t in queue || t in executing.Values)
    && ILLEGAL_TICKET !in live
  }

  /** An entry remembers when its ticket was issued. */
  ghost predicate Issued(running: map<Ticket, Entry>, submitted: seq<Ticket>) {
    forall t <- running :: running[t].serial < |submitted| && submitted[running[t].serial] == t
  }

  /** Until 2^32 - 1 tasks have been submitted, the n-th one has ticket n. */
  ghost predicate Numbered(submitted: seq<Ticket>, currTicket: Ticket) {
    |submitted| < TICKETS ==> (currTicket == |submitted| && forall i | 0 <= i < |submitted| :: submitted[i] == i + 1)
  }

  /** How often waiter c must be registered with ticket t. */
  function Expected(serial: nat, waiters: map<Cond, Waiter>, t: Ticket, c: Cond): nat {
    if c in waiters && serial < waiters[c].since then multiset(waiters[c].tickets)[t] else 0
  }

  ghost predicate Registered(running: map<Ticket, Entry>, waiters: map<Cond, Waiter>) {
    forall t, c | t in running :: Count(running[t], c) == Expected(running[t].serial, waiters, t, c)
  }

  ghost predicate Begun(waiters: map<Cond, Waiter>, now: nat) { forall c <- waiters :: waiters[c].since <= now }

  /** One of w's tickets runs and its end will notify the condition c. */
  ghost predicate Covered(running: map<Ticket, Entry>, w: Waiter, c: Cond) {
    exists t :: t in running && t in w.tickets && Count(running[t], c) > 0
  }

  /** One of w's tickets was issued after w began to wait. */
  ghost predicate Anticipates(submitted: seq<Ticket>, w: Waiter) {
    exists i :: w.since <= i < |submitted| && submitted[i] in w.tickets
  }

  ghost predicate Notified(running: map<Ticket, Entry>, waiters: map<Cond, Waiter>, submitted: seq<Ticket>) {
    forall c | c in waiters && waiters[c].asleep ::
        Covered(running, waiters[c], c) || Anticipates(submitted, waiters[c])
  }

  ghost predicate Counted(nRunning: int, live: set<Ticket>, queue: seq<Ticket>, busy: set<Tid>) {
    nRunning == |live| == |queue| + |busy|
  }

  /** Tasks are taken in the order of submission, each one once. */
  ghost predicate Served(submitted: seq<Ticket>, taken: seq<Ticket>, queue: seq<Ticket>) {
    submitted == taken + queue
  }

  /** Tickets: the queue is what was submitted and not yet taken, in order. */
  ghost predicate TicketBooks(p: Pool) {
    && Counted(p.nRunning, p.running.Keys, p.queue, p.executing.Keys)
    && Tasks(p.queue, p.executing, p.running.Keys)
    && Served(p.submitted, p.taken, p.queue)
    && Numbered(p.submitted, p.currTicket)
  }

  /** Waiters and the entries they are registered with. */
  ghost predicate WaitBooks(running: map<Ticket, Entry>, waiters: map<Cond, Waiter>, submitted: seq<Ticket>) {
    && Issued(running, submitted) && Registered(running, waiters)
    && Begun(waiters, |submitted|) && Notified(running, waiters, submitted)
  }

  ghost predicate Books(p: Pool) {
    TicketBooks(p) && WaitBooks(p.running, p.waiters, p.submitted)
  }

  ghost predicate Inv(l: Limits, p: Pool) {
    Threads(l, p.nThreads, p.nRunning, p.awake, p.sleeping, p.executing.Keys, |p.queue|) && Books(p)
  }

  // ---------------------------------------------------------------------------------------
  // Every step keeps it

  lemma ThreadsSpawn(l: Limits, n: int, r: int, awake: set<Tid>, sleeping: set<Tid>, busy: set<Tid>, queued: nat,
      tid: Tid)
    requires Threads(l, n, r, awake, sleeping, busy, queued) && tid !in awake + sleeping + busy && n < l.maxThreads
    ensures Threads(l, n + 1, r, awake + {tid}, sleeping, busy, queued)
  {
  }

  /** One more task: the thread that notify_one wakes makes up for it. */
  lemma ThreadsSubmit(l: Limits, n: int, r: int, awake: set<Tid>, sleeping: set<Tid>, busy: set<Tid>, queued: nat,
      woken: Option<Tid>)
    requires Threads(l, n, r, awake, sleeping, busy, queued) && (n >= r + 1 || n >= l.maxThreads)
    requires if sleeping == {} then woken.None? else woken.Some? && woken.value in sleeping
    ensures woken.None? ==> Threads(l, n, r + 1, awake, sleeping, busy, queued + 1)
    ensures woken.Some? ==> Threads(l, n, r + 1, awake + {woken.value}, sleeping - {woken.value}, busy, queued + 1)
  {
    if woken.Some? {
      assert |sleeping - {woken.value}| == |sleeping| - 1;
      assert |awake + {woken.value}| == |awake| + 1;
    }
  }

  lemma ThreadsWake(l: Limits, n: int, r: int, awake: set<Tid>, sleeping: set<Tid>, busy: set<Tid>, queued: nat,
      tid: Tid)
    requires Threads(l, n, r, awake, sleeping, busy, queued) && tid in sleeping
    ensures Threads(l, n, r, awake + {tid}, sleeping - {tid}, busy, queued)
  {
    assert |sleeping - {tid}| == |sleeping| - 1;
    assert |awake + {tid}| == |awake| + 1;
  }

  lemma ThreadsTake(l: Limits, n: int, r: int, awake: set<Tid>, sleeping: set<Tid>, busy: set<Tid>, queued: nat,
      tid: Tid)
    requires Threads(l, n, r, awake, sleeping, busy, queued) && tid in awake && queued > 0
    ensures tid !in busy && Threads(l, n, r, awake - {tid}, sleeping, busy + {tid}, queued - 1)
  {
    assert |awake - {tid}| == |awake| - 1;
    assert |busy + {tid}| == |busy| + 1;
  }

  /** With nothing queued a thread ends when more than maxWaiting are idle, and may sleep otherwise. */
  lemma ThreadsIdle(l: Limits, n: int, r: int, awake: set<Tid>, sleeping: set<Tid>, busy: set<Tid>, live: set<Ticket>,
      queue: seq<Ticket>, tid: Tid)
    requires Threads(l, n, r, awake, sleeping, busy, |queue|) && tid in awake && Counted(r, live, queue, busy)
    requires queue == []
    ensures n >= r
    ensures n - r > l.maxWaiting ==> Threads(l, n - 1, r, awake - {tid}, sleeping, busy, |queue|)
    ensures n - r <= l.maxWaiting ==> Threads(l, n, r, awake - {tid}, sleeping + {tid}, busy, |queue|)
  {
    assert |awake - {tid}| == |awake| - 1;
    assert |sleeping + {tid}| == |sleeping| + 1;
  }

  lemma ThreadsRelease(l: Limits, n: int, r: int, awake: set<Tid>, sleeping: set<Tid>, busy: set<Tid>, queued: nat,
      tid: Tid)
    requires Threads(l, n, r, awake, sleeping, busy, queued) && tid in busy
    ensures Threads(l, n, r - 1, awake + {tid}, sleeping, busy - {tid}, queued)
  {
    assert |busy - {tid}| == |busy| - 1;
    assert |awake + {tid}| == |awake| + 1;
  }

  lemma SpawnKeeps(l: Limits, p: Pool, thread: Tid)
    requires Inv(l, p) && !Live(p, thread)
    ensures Inv(l, Spawn(l, p, thread))
    ensures var q := Spawn(l, p, thread); q.nThreads >= q.nRunning + 1 || q.nThreads >= l.maxThreads
  {
    hide Tasks, Issued, Numbered, Registered, Begun, Notified;
    if MustSpawn(l, p) {
      ThreadsSpawn(l, p.nThreads, p.nRunning, p.awake, p.sleeping, p.executing.Keys, |p.queue|, thread);
    }
  }

  lemma EnqueueTasks(queue: seq<Ticket>, executing: map<Tid, Ticket>, live: set<Ticket>, t: Ticket)
    requires Tasks(queue, executing, live) && t !in live && t != ILLEGAL_TICKET
    ensures Tasks(queue + [t], executing, live + {t})
  {
    var q := queue + [t];
    assert q[|queue|] == t;
    forall u | u in live + {t} ensures u in q || u in executing.Values { if u in queue { assert u in q; } }
    forall tid <- executing ensures executing[tid] !in q { assert executing[tid] != t; }
  }

  lemma TakeTasks(queue: seq<Ticket>, executing: map<Tid, Ticket>, live: set<Ticket>, tid: Tid)
    requires Tasks(queue, executing, live) && queue != [] && tid !in executing
    ensures Tasks(queue[1..], executing[tid := queue[0]], live)
  {
    var q, x, t := queue[1..], executing[tid := queue[0]], queue[0];
    assert queue == [t] + q;
    forall u <- live ensures u in q || u in x.Values {
      if u in executing.Values {
        var o :| o in executing && executing[o] == u;
        assert x[o] == u;
      } else if u == t { assert x[tid] == u; }
    }
    forall o <- x ensures x[o] in live && x[o] !in q { }
  }

  lemma ReleaseTasks(queue: seq<Ticket>, executing: map<Tid, Ticket>, live: set<Ticket>, tid: Tid)
    requires Tasks(queue, executing, live) && tid in executing
    ensures executing[tid] in live && Tasks(queue, executing - {tid}, live - {executing[tid]})
  {
    var x := executing - {tid};
    forall u <- live - {executing[tid]} ensures u in queue || u in x.Values {
      if u in executing.Values {
        var o :| o in executing && executing[o] == u;
        assert o in x && x[o] == u;
      }
    }
  }

  lemma EnqueueNumbers(running: map<Ticket, Entry>, submitted: seq<Ticket>, curr: Ticket, skip: nat)
    requires Issued(running, submitted) && Numbered(submitted, curr) && FirstFree(running, curr, skip)
    ensures Numbered(submitted + [TicketAt(curr, skip)], TicketAt(curr, skip))
  {
    var s := submitted + [TicketAt(curr, skip)];
    if |s| < TICKETS {
      var next := TicketAt(curr, 1);
      assert next !in running;
      assert FreeTicket(running, next);
      assert skip == 1;
    }
  }

  lemma AnticipatesGrows(submitted: seq<Ticket>, t: Ticket, w: Waiter)
    ensures Anticipates(submitted, w) ==> Anticipates(submitted + [t], w)
  {
    if Anticipates(submitted, w) {
      var i :| w.since <= i < |submitted| && submitted[i] in w.tickets;
      assert (submitted + [t])[i] in w.tickets;
    }
  }

  lemma EnqueueNotified(running: map<Ticket, Entry>, waiters: map<Cond, Waiter>, submitted: seq<Ticket>, t: Ticket,
      e: Entry)
    requires Notified(running, waiters, submitted) && t !in running
    ensures Notified(running[t := e], waiters, submitted + [t])
  {
    var r := running[t := e];
    forall c | c in waiters && waiters[c].asleep
      ensures Covered(r, waiters[c], c) || Anticipates(submitted + [t], waiters[c])
    {
      AnticipatesGrows(submitted, t, waiters[c]);
      if Covered(running, waiters[c], c) {
        var u :| u in running && u in waiters[c].tickets && Count(running[u], c) > 0;
        assert r[u] == running[u];
      }
    }
  }

  lemma EnqueueRegistered(running: map<Ticket, Entry>, waiters: map<Cond, Waiter>, now: nat, t: Ticket)
    requires Registered(running, waiters) && Begun(waiters, now) && t !in running
    ensures Registered(running[t := Entry(now, None, [])], waiters) && Begun(waiters, now + 1)
  {
  }

  lemma EnqueueIssued(running: map<Ticket, Entry>, submitted: seq<Ticket>, t: Ticket)
    requires Issued(running, submitted)
    ensures Issued(running[t := Entry(|submitted|, None, [])], submitted + [t])
  {
  }

  lemma EnqueueFields(q: Pool, t: Ticket)
    ensures var e := Enqueue(q, t);
            && e.queue == q.queue + [t] && e.running == q.running[t := Entry(|q.submitted|, None, [])]
            && e.submitted == q.submitted + [t] && e.taken == q.taken && e.executing == q.executing
            && e.nRunning == q.nRunning + 1 && e.nThreads == q.nThreads && e.currTicket == t
            && e.awake == q.awake && e.sleeping == q.sleeping && e.waiters == q.waiters
  {
  }

  lemma EnqueueTickets(q: Pool, skip: nat)
    requires TicketBooks(q) && Issued(q.running, q.submitted) && FirstFree(q.running, q.currTicket, skip)
    ensures TicketBooks(Enqueue(q, TicketAt(q.currTicket, skip)))
  {
    hide Tasks, Served, Numbered, Counted, Issued, FirstFree, TicketAt, Enqueue;
    var t := TicketAt(q.currTicket, skip);
    EnqueueFields(q, t);
    FirstFreeIsFree(q.running, q.currTicket, skip);
    EnqueueTasks(q.queue, q.executing, q.running.Keys, t);
    EnqueueNumbers(q.running, q.submitted, q.currTicket, skip);
    CountedSubmit(q.nRunning, q.running.Keys, q.queue, q.executing.Keys, t);
    KeysAdd(q.running, t, Entry(|q.submitted|, None, []));
    EnqueueServed(q.submitted, q.taken, q.queue, t);
  }

  lemma EnqueueWaits(running: map<Ticket, Entry>, waiters: map<Cond, Waiter>, submitted: seq<Ticket>, t: Ticket)
    requires WaitBooks(running, waiters, submitted) && t !in running
    ensures WaitBooks(running[t := Entry(|submitted|, None, [])], waiters, submitted + [t])
  {
    hide Issued, Registered, Begun, Notified;
    EnqueueIssued(running, submitted, t);
    EnqueueRegistered(running, waiters, |submitted|, t);
    EnqueueNotified(running, waiters, submitted, t, Entry(|submitted|, None, []));
  }

  lemma EnqueueBooks(q: Pool, skip: nat)
    requires Books(q) && FirstFree(q.running, q.currTicket, skip)
    ensures Books(Enqueue(q, TicketAt(q.currTicket, skip)))
  {
    hide TicketBooks, Issued, Registered, Begun, Notified, FirstFree, TicketAt, Enqueue;
    FirstFreeIsFree(q.running, q.currTicket, skip);
    EnqueueFields(q, TicketAt(q.currTicket, skip));
    EnqueueTickets(q, skip);
    EnqueueWaits(q.running, q.waiters, q.submitted, TicketAt(q.currTicket, skip));
  }

  /** Waking an idle thread, or not, after the task was queued. */
  lemma EnqueueWakes(l: Limits, e: Pool, woken: Option<Tid>)
    requires Books(e)
    requires woken.None? ==> Threads(l, e.nThreads, e.nRunning, e.awake, e.sleeping, e.executing.Keys, |e.queue|)
    requires woken.Some? ==>
            Threads(l, e.nThreads, e.nRunning, e.awake + {woken.value}, e.sleeping - {woken.value}, e.executing.Keys,
                |e.queue|)
    ensures Inv(l, if woken.Some? then Wake(e, woken.value) else e)
  {
    hide Threads, Tasks, Served, Numbered, WaitBooks, Counted;
  }

  lemma EnqueueKeeps(l: Limits, q: Pool, skip: nat, woken: Option<Tid>)
    requires Inv(l, q) && FirstFree(q.running, q.currTicket, skip) && Notifies(q, woken)
    requires q.nThreads >= q.nRunning + 1 || q.nThreads >= l.maxThreads
    ensures var e := Enqueue(q, TicketAt(q.currTicket, skip)); Inv(l, if woken.Some? then Wake(e, woken.value) else e)
  {
    hide Threads, Books, FirstFree, TicketAt, Enqueue;
    EnqueueBooks(q, skip);
    EnqueueFields(q, TicketAt(q.currTicket, skip));
    ThreadsSubmit(l, q.nThreads, q.nRunning, q.awake, q.sleeping, q.executing.Keys, |q.queue|, woken);
    hide Inv, Wake;
    EnqueueWakes(l, Enqueue(q, TicketAt(q.currTicket, skip)), woken);
  }

  lemma EnqueueServed(submitted: seq<Ticket>, taken: seq<Ticket>, queue: seq<Ticket>, t: Ticket)
    requires Served(submitted, taken, queue)
    ensures Served(submitted + [t], taken, queue + [t])
  {
  }

  lemma TakeServed(submitted: seq<Ticket>, taken: seq<Ticket>, queue: seq<Ticket>)
    requires Served(submitted, taken, queue) && queue != []
    ensures Served(submitted, taken + [queue[0]], queue[1..])
  {
  }

  lemma FirstFreeIsFree(running: map<Ticket, Entry>, curr: Ticket, skip: nat)
    requires FirstFree(running, curr, skip)
    ensures TicketAt(curr, skip) !in running && TicketAt(curr, skip) != ILLEGAL_TICKET
  {
  }

  lemma CountedSubmit(nRunning: int, live: set<Ticket>, queue: seq<Ticket>, busy: set<Tid>, t: Ticket)
    requires Counted(nRunning, live, queue, busy) && t !in live
    ensures Counted(nRunning + 1, live + {t}, queue + [t], busy)
  {
  }

  lemma CountedTake(nRunning: int, live: set<Ticket>, queue: seq<Ticket>, busy: set<Tid>, tid: Tid)
    requires Counted(nRunning, live, queue, busy) && tid !in busy && queue != []
    ensures Counted(nRunning, live, queue[1..], busy + {tid})
  {
  }

  lemma CountedRelease(nRunning: int, live: set<Ticket>, queue: seq<Ticket>, busy: set<Tid>, tid: Tid, t: Ticket)
    requires Counted(nRunning, live, queue, busy) && tid in busy && t in live
    ensures Counted(nRunning - 1, live - {t}, queue, busy - {tid})
  {
    assert |live - {t}| == |live| - 1;
    assert |busy - {tid}| == |busy| - 1;
  }

  lemma KeysAdd<K, V>(m: map<K, V>, k: K, v: V)
    ensures m[k := v].Keys == m.Keys + {k}
  {
  }

  lemma KeysRemove<K, V>(m: map<K, V>, k: K)
    ensures (m - {k}).Keys == m.Keys - {k}
  {
  }

  lemma ExecuteKeeps(l: Limits, p: Pool, s: Step)
    requires s.Execute? && Inv(l, p) && Enabled(l, p, s)
    ensures Inv(l, Apply(l, p, s))
  {
    hide Inv, FirstFree;
    SpawnKeeps(l, p, s.thread);
    EnqueueKeeps(l, Spawn(l, p, s.thread), s.skip, s.woken);
  }

  lemma WakeKeeps(l: Limits, p: Pool, tid: Tid)
    requires Inv(l, p) && tid in p.sleeping
    ensures Inv(l, Wake(p, tid))
  {
    hide Threads, Tasks, Issued, Numbered, Registered, Begun, Notified;
    ThreadsWake(l, p.nThreads, p.nRunning, p.awake, p.sleeping, p.executing.Keys, |p.queue|, tid);
  }

  lemma TakeKeeps(l: Limits, p: Pool, tid: Tid)
    requires Inv(l, p) && tid in p.awake && p.queue != []
    ensures Inv(l, Round(l, p, tid))
  {
    hide Threads, Tasks, Served, Numbered, WaitBooks, Counted;
    var q := Round(l, p, tid);
    ThreadsTake(l, p.nThreads, p.nRunning, p.awake, p.sleeping, p.executing.Keys, |p.queue|, tid);
    TakeTasks(p.queue, p.executing, p.running.Keys, tid);
    CountedTake(p.nRunning, p.running.Keys, p.queue, p.executing.Keys, tid);
    TakeServed(p.submitted, p.taken, p.queue);
    KeysAdd(p.executing, tid, p.queue[0]);
    assert |q.queue| == |p.queue| - 1;
  }

  lemma IdleKeeps(l: Limits, p: Pool, tid: Tid)
    requires Inv(l, p) && tid in p.awake && p.queue == []
    ensures Inv(l, Round(l, p, tid))
  {
    hide Threads, Counted, Inv;
    InvParts(l, p);
    ThreadsIdle(l, p.nThreads, p.nRunning, p.awake, p.sleeping, p.executing.Keys, p.running.Keys, p.queue, tid);
    if p.nThreads - p.nRunning > l.maxWaiting {
      InvThreads(l, p, p.nThreads - 1, p.awake - {tid}, p.sleeping);
      assert Round(l, p, tid) == p.(nThreads := p.nThreads - 1, awake := p.awake - {tid}, sleeping := p.sleeping);
    } else {
      InvThreads(l, p, p.nThreads, p.awake - {tid}, p.sleeping + {tid});
      assert Round(l, p, tid) == p.(nThreads := p.nThreads, awake := p.awake - {tid}, sleeping := p.sleeping + {tid});
    }
  }

  lemma InvParts(l: Limits, p: Pool)
    requires Inv(l, p)
    ensures Threads(l, p.nThreads, p.nRunning, p.awake, p.sleeping, p.executing.Keys, |p.queue|)
    ensures Counted(p.nRunning, p.running.Keys, p.queue, p.executing.Keys)
  {
    hide Threads, Tasks, Served, Numbered, WaitBooks, Counted;
  }

  lemma InvThreads(l: Limits, p: Pool, n: int, awake: set<Tid>, sleeping: set<Tid>)
    requires Inv(l, p) && Threads(l, n, p.nRunning, awake, sleeping, p.executing.Keys, |p.queue|)
    ensures Inv(l, p.(nThreads := n, awake := awake, sleeping := sleeping))
  {
    hide Threads, Tasks, Served, Numbered, WaitBooks, Counted;
  }

  lemma RoundKeeps(l: Limits, p: Pool, tid: Tid)
    requires Inv(l, p) && tid in p.awake
    ensures Inv(l, Round(l, p, tid))
  {
    hide Inv, Round;
    if p.queue != [] { TakeKeeps(l, p, tid); } else { IdleKeeps(l, p, tid); }
  }

  lemma ReleaseRegistered(running: map<Ticket, Entry>, waiters: map<Cond, Waiter>, rest: map<Cond, Waiter>, t: Ticket,
      now: nat)
    requires Registered(running, waiters) && Begun(waiters, now) && rest.Keys == waiters.Keys
    requires forall c <- waiters :: rest[c].tickets == waiters[c].tickets && rest[c].since == waiters[c].since
    ensures Registered(running - {t}, rest) && Begun(rest, now)
  {
    forall u, c | u in running - {t} ensures Count(running[u], c) == Expected(running[u].serial, rest, u, c) {
      assert Count(running[u], c) == Expected(running[u].serial, waiters, u, c);
    }
  }

  /** Erasing a ticket after notifying everybody registered with it strands nobody. */
  lemma ReleaseNotified(running: map<Ticket, Entry>, waiters: map<Cond, Waiter>, rest: map<Cond, Waiter>,
      submitted: seq<Ticket>, t: Ticket)
    requires Notified(running, waiters, submitted) && t in running && rest.Keys == waiters.Keys
    requires forall c <- rest :: rest[c].asleep ==> rest[c] == waiters[c] && Count(running[t], c) == 0
    ensures Notified(running - {t}, rest, submitted)
  {
    var r := running - {t};
    forall c | c in rest && rest[c].asleep ensures Covered(r, rest[c], c) || Anticipates(submitted, rest[c]) {
      if Covered(running, waiters[c], c) {
        var u :| u in running && u in waiters[c].tickets && Count(running[u], c) > 0;
        assert u in r && r[u] == running[u];
      }
    }
  }

  lemma ReleaseWaits(running: map<Ticket, Entry>, waiters: map<Cond, Waiter>, rest: map<Cond, Waiter>,
      submitted: seq<Ticket>, t: Ticket)
    requires WaitBooks(running, waiters, submitted) && t in running && rest.Keys == waiters.Keys
    requires forall c <- waiters ::
            rest[c] == if Count(running[t], c) > 0 then waiters[c].(asleep := false) else waiters[c]
    ensures WaitBooks(running - {t}, rest, submitted)
  {
    hide Issued, Registered, Begun, Notified;
    ReleaseRegistered(running, waiters, rest, t, |submitted|);
    ReleaseNotified(running, waiters, rest, submitted, t);
    ReleaseIssued(running, submitted, t);
  }

  lemma ReleaseKeeps(l: Limits, p: Pool, tid: Tid)
    requires Inv(l, p) && tid in p.executing
    ensures Inv(l, Release(p, tid)) && tid in Release(p, tid).awake
  {
    hide Threads, Tasks, Served, Numbered, WaitBooks, Counted, Release, Count;
    var q, t := Release(p, tid), p.executing[tid];
    assert t in p.running by { ExecutedIsLive(p, tid); }
    ReleaseFields(p, tid);
    ReleaseTasks(p.queue, p.executing, p.running.Keys, tid);
    CountedRelease(p.nRunning, p.running.Keys, p.queue, p.executing.Keys, tid, t);
    ThreadsRelease(l, p.nThreads, p.nRunning, p.awake, p.sleeping, p.executing.Keys, |p.queue|, tid);
    KeysRemove(p.executing, tid);
    KeysRemove(p.running, t);
    ReleaseWaits(p.running, p.waiters, q.waiters, p.submitted, t);
    assert TicketBooks(q);
    assert Books(q);
  }

  lemma ExecutedIsLive(p: Pool, tid: Tid)
    requires Tasks(p.queue, p.executing, p.running.Keys) && tid in p.executing
    ensures p.executing[tid] in p.running
  {
  }

  lemma ReleaseFields(p: Pool, tid: Tid)
    requires tid in p.executing
    ensures var q, t := Release(p, tid), p.executing[tid];
            && q.executing == p.executing - {tid} && q.running == p.running - {t} && q.awake == p.awake + {tid}
            && q.queue == p.queue && q.submitted == p.submitted && q.taken == p.taken && q.currTicket == p.currTicket
            && q.nRunning == p.nRunning - 1 && q.nThreads == p.nThreads && q.sleeping == p.sleeping
            && q.waiters.Keys == p.waiters.Keys
            && forall c <- p.waiters :: q.waiters[c] ==
                 if t in p.running && Count(p.running[t], c) > 0 then p.waiters[c].(asleep := false) else p.waiters[c]
  {
    hide Count;
  }

  lemma ReleaseIssued(running: map<Ticket, Entry>, submitted: seq<Ticket>, t: Ticket)
    requires Issued(running, submitted)
    ensures Issued(running - {t}, submitted)
  {
  }

  lemma IssuedFrame(running: map<Ticket, Entry>, r: map<Ticket, Entry>, submitted: seq<Ticket>)
    requires Issued(running, submitted) && r.Keys == running.Keys && forall t <- r :: r[t].serial == running[t].serial
    ensures Issued(r, submitted)
  {
  }

  /** Changing registrations alone keeps the serials and, for the other waiters, the coverage. */
  lemma CoveredFrame(running: map<Ticket, Entry>, r: map<Ticket, Entry>, w: Waiter, d: Cond)
    requires r.Keys == running.Keys && Covered(running, w, d)
    requires forall t <- running :: Count(r[t], d) == Count(running[t], d)
    ensures Covered(r, w, d)
  {
    var u :| u in running && u in w.tickets && Count(running[u], d) > 0;
    assert u in r && Count(r[u], d) > 0;
  }

  lemma NotifiedFrame(running: map<Ticket, Entry>, r: map<Ticket, Entry>, waiters: map<Cond, Waiter>,
      ws: map<Cond, Waiter>, submitted: seq<Ticket>, c: Cond)
    requires Notified(running, waiters, submitted) && r.Keys == running.Keys
    requires forall d | d in ws && d != c :: d in waiters && ws[d] == waiters[d]
    requires forall t, d | t in running && d != c :: Count(r[t], d) == Count(running[t], d)
    requires c in ws && ws[c].asleep ==> Covered(r, ws[c], c) || Anticipates(submitted, ws[c])
    ensures Notified(r, ws, submitted)
  {
    forall d | d in ws && ws[d].asleep ensures Covered(r, ws[d], d) || Anticipates(submitted, ws[d]) {
      if d != c && Covered(running, ws[d], d) { CoveredFrame(running, r, ws[d], d); }
    }
  }

  lemma JoinCounts(running: map<Ticket, Entry>, waiters: map<Cond, Waiter>, now: nat, c: Cond, names: seq<Ticket>,
      t: Ticket, d: Cond)
    requires Registered(running, waiters) && c !in waiters && t in running && running[t].serial < now
    ensures var r := Register(running, names, c)[t];
            && r.serial == running[t].serial
            && Count(r, d) == Expected(r.serial, waiters[c := Waiter(names, now, false)], t, d)
            && (d != c ==> Count(r, d) == Count(running[t], d))
  {
    RegisterCounts(running, names, c, t, d);
    assert Count(running[t], d) == Expected(running[t].serial, waiters, t, d);
  }

  lemma LeaveCounts(running: map<Ticket, Entry>, waiters: map<Cond, Waiter>, c: Cond, t: Ticket, d: Cond)
    requires Registered(running, waiters) && c in waiters && t in running
    ensures var r := Deregister(running, waiters[c].tickets, c)[t];
            && r.serial == running[t].serial
            && Count(r, d) == Expected(r.serial, waiters - {c}, t, d)
            && (d != c ==> Count(r, d) == Count(running[t], d))
  {
    DeregisterCounts(running, waiters[c].tickets, c, t, d);
    assert Count(running[t], d) == Expected(running[t].serial, waiters, t, d);
  }

  lemma JoinKeeps(l: Limits, p: Pool, c: Cond, names: seq<Ticket>)
    requires Inv(l, p) && c !in p.waiters
    ensures Inv(l, Join(p, c, names))
  {
    hide Threads, Tasks, Numbered, Notified, Expected, Count, Register;
    var q := Join(p, c, names);
    assert q.running.Keys == p.running.Keys;
    forall t, d | t in q.running
      ensures q.running[t].serial == p.running[t].serial
      ensures Count(q.running[t], d) == Expected(q.running[t].serial, q.waiters, t, d)
      ensures d != c ==> Count(q.running[t], d) == Count(p.running[t], d)
    {
      JoinCounts(p.running, p.waiters, |p.submitted|, c, names, t, d);
    }
    NotifiedFrame(p.running, q.running, p.waiters, q.waiters, p.submitted, c);
    assert Registered(q.running, q.waiters);
    forall t <- q.running
      ensures q.running[t].serial == p.running[t].serial
    {
      JoinCounts(p.running, p.waiters, |p.submitted|, c, names, t, c);
    }
    IssuedFrame(p.running, q.running, p.submitted);
  }

  /** A round of waitFor that sleeps leaves the waiter covered, or waiting for a ticket issued since. */
  lemma SleepCovered(p: Pool, c: Cond)
    requires c in p.waiters && AnyRunning(p.running, p.waiters[c].tickets)
    requires Issued(p.running, p.submitted) && Registered(p.running, p.waiters)
    ensures Covered(p.running, p.waiters[c], c) || Anticipates(p.submitted, p.waiters[c])
  {
    var w := p.waiters[c];
    var i :| 0 <= i < |w.tickets| && w.tickets[i] in p.running;
    var t := w.tickets[i];
    assert Count(p.running[t], c) == Expected(p.running[t].serial, p.waiters, t, c);
  }

  lemma RegisteredSleep(running: map<Ticket, Entry>, waiters: map<Cond, Waiter>, c: Cond, asleep: bool, now: nat)
    requires Registered(running, waiters) && Begun(waiters, now) && c in waiters
    ensures Registered(running, waiters[c := waiters[c].(asleep := asleep)])
    ensures Begun(waiters[c := waiters[c].(asleep := asleep)], now)
  {
    var ws := waiters[c := waiters[c].(asleep := asleep)];
    forall t, d | t in running ensures Count(running[t], d) == Expected(running[t].serial, ws, t, d) {
      assert Count(running[t], d) == Expected(running[t].serial, waiters, t, d);
    }
  }

  lemma LookKeeps(l: Limits, p: Pool, c: Cond, timedOut: bool)
    requires Inv(l, p) && c in p.waiters
    ensures Inv(l, Look(p, c, timedOut))
  {
    hide Threads, Tasks, Issued, Numbered, Notified, Registered, Covered, Anticipates, Begun, AnyRunning;
    var q, w := Look(p, c, timedOut), p.waiters[c];
    if WaitOutcome(p, w.tickets, timedOut).Sleeps? {
      SleepCovered(p, c);
      CoveredAsleep(p.running, p.submitted, w, true, c);
      RegisteredSleep(p.running, p.waiters, c, true, |p.submitted|);
      NotifiedFrame(p.running, q.running, p.waiters, q.waiters, p.submitted, c);
    } else {
      LeaveKeeps(p.running, p.waiters, p.submitted, c);
    }
  }

  lemma CoveredAsleep(running: map<Ticket, Entry>, submitted: seq<Ticket>, w: Waiter, asleep: bool, c: Cond)
    ensures Covered(running, w, c) ==> Covered(running, w.(asleep := asleep), c)
    ensures Anticipates(submitted, w) ==> Anticipates(submitted, w.(asleep := asleep))
  {
    var v := w.(asleep := asleep);
    if Covered(running, w, c) {
      var t :| t in running && t in w.tickets && Count(running[t], c) > 0;
      assert t in v.tickets;
    }
    if Anticipates(submitted, w) {
      var i :| w.since <= i < |submitted| && submitted[i] in w.tickets;
      assert submitted[i] in v.tickets;
    }
  }

  /** The end of waitFor: its condition is forgotten by every ticket, and no other registration changes. */
  lemma LeaveKeeps(running: map<Ticket, Entry>, waiters: map<Cond, Waiter>, submitted: seq<Ticket>, c: Cond)
    requires Issued(running, submitted) && Registered(running, waiters) && Begun(waiters, |submitted|)
    requires Notified(running, waiters, submitted)
    requires c in waiters
    ensures var r, ws := Deregister(running, waiters[c].tickets, c), waiters - {c};
            Issued(r, submitted) && Registered(r, ws) && Begun(ws, |submitted|) && Notified(r, ws, submitted)
  {
    hide Covered, Anticipates, Notified, Expected, Count, Deregister;
    var r, ws := Deregister(running, waiters[c].tickets, c), waiters - {c};
    assert r.Keys == running.Keys;
    forall t, d | t in r
      ensures r[t].serial == running[t].serial && Count(r[t], d) == Expected(r[t].serial, ws, t, d)
      ensures d != c ==> Count(r[t], d) == Count(running[t], d)
    {
      LeaveCounts(running, waiters, c, t, d);
    }
    NotifiedFrame(running, r, waiters, ws, submitted, c);
    forall t <- r ensures r[t].serial == running[t].serial { LeaveCounts(running, waiters, c, t, c); }
    IssuedFrame(running, r, submitted);
  }

  lemma WakeWaiterKeeps(l: Limits, p: Pool, c: Cond)
    requires Inv(l, p) && c in p.waiters
    ensures Inv(l, p.(waiters := p.waiters[c := p.waiters[c].(asleep := false)]))
  {
    hide Threads, Tasks, Issued, Numbered, Notified, Registered, Covered, Anticipates, Begun;
    RegisteredSleep(p.running, p.waiters, c, false, |p.submitted|);
    NotifiedFrame(p.running, p.running, p.waiters, p.waiters[c := p.waiters[c].(asleep := false)], p.submitted, c);
  }

  lemma StepKeeps(l: Limits, p: Pool, s: Step)
    requires Inv(l, p) && Enabled(l, p, s)
    ensures Inv(l, Apply(l, p, s))
  {
    hide Inv, FirstFree, Register, Deregister;
    match s
    case Execute(_, _, _) => ExecuteKeeps(l, p, s);
    case Proceed(tid) => RoundKeeps(l, p, tid);
    case Finish(tid) => ReleaseKeeps(l, p, tid); RoundKeeps(l, Release(p, tid), tid);
    case WakeIdle(tid) => WakeKeeps(l, p, tid);
    case WaitStart(c, names, timedOut) => JoinKeeps(l, p, c, names); LookKeeps(l, Join(p, c, names), c, timedOut);
    case WaitAgain(c, timedOut) => LookKeeps(l, p, c, timedOut);
    case WakeWaiter(c) => WakeWaiterKeeps(l, p, c);
  }

  // ---------------------------------------------------------------------------------------
  // Runs

  ghost predicate StepAt(l: Limits, states: seq<Pool>, steps: seq<Step>, i: nat)
    requires i < |steps| && |states| == |steps| + 1
  {
    Enabled(l, states[i], steps[i]) && states[i + 1] == Apply(l, states[i], steps[i])
  }

  /** Any interleaving of steps, starting with the empty pool. */
  ghost predicate Run(l: Limits, states: seq<Pool>, steps: seq<Step>) {
    && |states| == |steps| + 1 && states[0] == EMPTY_POOL
    && forall i: nat | i < |steps| :: StepAt(l, states, steps, i)
  }

  lemma EmptyPoolKeeps(l: Limits)
    ensures Inv(l, EMPTY_POOL)
  {
  }

  lemma {:induction false} RunKeeps(l: Limits, states: seq<Pool>, steps: seq<Step>, i: nat)
    requires Run(l, states, steps) && i < |states|
    ensures Inv(l, states[i])
  {
    hide Inv, Enabled, Apply;
    if i == 0 {
      EmptyPoolKeeps(l);
    } else {
      RunKeeps(l, states, steps, i - 1);
      assert StepAt(l, states, steps, i - 1);
      StepKeeps(l, states[i - 1], steps[i - 1]);
    }
  }

  /** A queued task always has an awake thread about to take it, unless maxThreads tasks are executed. */
  lemma NoStrandedTask(l: Limits, states: seq<Pool>, steps: seq<Step>, i: nat)
    requires Run(l, states, steps) && i < |states|
    ensures var p := states[i];
            && p.nThreads == |p.awake| + |p.sleeping| + |p.executing| <= l.maxThreads
            && (p.nThreads >= p.nRunning || p.nThreads == l.maxThreads)
            && |p.sleeping| <= l.maxWaiting
            && (p.queue != [] && |p.executing| < l.maxThreads ==>
                exists tid :: tid in p.awake && Enabled(l, p, Proceed(tid)))
            && (p.queue != [] && p.sleeping != {} ==> |p.awake| >= |p.queue|)
  {
    RunKeeps(l, states, steps, i);
    var p := states[i];
    if p.queue != [] && |p.executing| < l.maxThreads {
      assert p.awake != {};
      var tid :| tid in p.awake;
      assert Enabled(l, p, Proceed(tid));
    }
  }

  // ---------------------------------------------------------------------------------------
  // What the parts of a step leave alone

  lemma SubmitFrame(l: Limits, p: Pool, s: Step)
    requires Enabled(l, p, s) && s.Execute?
    ensures var q := Apply(l, p, s);
            var t := TicketAt(p.currTicket, s.skip);
            && q.waiters == p.waiters && q.running == p.running[t := Entry(|p.submitted|, None, [])]
            && q.submitted == p.submitted + [t] && q.taken == p.taken && q.answers == p.answers
  {
    hide FirstFree, TicketAt;
  }

  lemma RoundFrame(l: Limits, p: Pool, tid: Tid)
    ensures var q := Round(l, p, tid);
            && q.waiters == p.waiters && q.running == p.running && q.submitted == p.submitted && q.answers == p.answers
            && p.taken <= q.taken && |q.taken| <= |p.taken| + 1
  {
  }

  lemma ReleaseFrame(p: Pool, tid: Tid)
    requires tid in p.executing
    ensures var q := Release(p, tid);
            && q.submitted == p.submitted && q.taken == p.taken && q.answers == p.answers
            && q.waiters.Keys == p.waiters.Keys
            && forall c | c in p.waiters ::
                 q.waiters[c].tickets == p.waiters[c].tickets && q.waiters[c].since == p.waiters[c].since
  {
    hide Count;
  }

  lemma LookFrame(p: Pool, c: Cond, timedOut: bool)
    requires c in p.waiters
    ensures var q := Look(p, c, timedOut);
            && q.submitted == p.submitted && q.taken == p.taken
            && (forall d | d in q.waiters ::
                  && d in p.waiters && q.waiters[d].tickets == p.waiters[d].tickets
                  && q.waiters[d].since == p.waiters[d].since)
            && (forall d | d in p.waiters && d != c :: d in q.waiters && q.waiters[d] == p.waiters[d])
  {
    hide Deregister, AnyRunning;
  }

  lemma JoinFrame(p: Pool, c: Cond, names: seq<Ticket>)
    ensures var q := Join(p, c, names);
            && q.submitted == p.submitted && q.taken == p.taken
            && q.waiters == p.waiters[c := Waiter(names, |p.submitted|, false)]
  {
    hide Register;
  }

  /** A step submits or takes at most one task, at the end of the lists. */
  lemma StepGrows(l: Limits, p: Pool, s: Step)
    requires Enabled(l, p, s)
    ensures var q := Apply(l, p, s);
            && p.submitted <= q.submitted && p.taken <= q.taken
            && |q.taken| <= |p.taken| + 1 && |q.submitted| <= |p.submitted| + 1
  {
    hide FirstFree, TicketAt, Look, Join, Round, Release;
    match s
    case Execute(_, _, _) => SubmitFrame(l, p, s);
    case Proceed(tid) => RoundFrame(l, p, tid);
    case Finish(tid) =>
      ReleaseFrame(p, tid);
      RoundFrame(l, Release(p, tid), tid);
    case WaitStart(c, names, timedOut) =>
      JoinFrame(p, c, names);
      LookFrame(Join(p, c, names), c, timedOut);
    case WaitAgain(c, timedOut) => LookFrame(p, c, timedOut);
    case _ =>
  }

  lemma {:induction false} SubmittedGrows(l: Limits, states: seq<Pool>, steps: seq<Step>, i: nat, j: nat)
    requires Run(l, states, steps) && i <= j < |states|
    ensures states[i].submitted <= states[j].submitted && states[i].taken <= states[j].taken
  {
    if i < j {
      hide Enabled, Apply;
      SubmittedGrows(l, states, steps, i, j - 1);
      assert StepAt(l, states, steps, j - 1);
      StepGrows(l, states[j - 1], steps[j - 1]);
    }
  }
}
