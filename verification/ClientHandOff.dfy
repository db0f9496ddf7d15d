/**
 * One select thread and its workers as a transition system: how a CClient passes from the poll loop to a
 * worker and back, or is deleted.
 */
module ClientHandOff {
  import opened Options

  type Client = nat
  type Worker = nat
  const MAX_CLIENTS: nat := 60

  /**
   * processing: the allocated clients and their flag; listed: the deque of the select thread; admitted:
   * accepted by FreeClients and not yet pushed; handing: taken by FindWorker's test-and-set and not yet
   * queued; queue: client_queue; held: what each busy worker works on.
   */
  datatype Hub = Hub(
    processing: map<Client, bool>, listed: seq<Client>, admitted: Option<Client>,
    handing: Option<Client>, queue: seq<Client>, held: map<Worker, Client>)

  const EMPTY_HUB := Hub(map[], [], None, None, [], map[])

  datatype Step =
    /** AddClient's test of FreeClients, for a client that the one accept thread has made. */
    | Admit(c: Client)
    | Add
    /** FindWorker: the test-and-set of the flag, and then the push; the select thread holds its mutex all the while. */
    | Offer(c: Client)
    | Push
    | Take(w: Worker)
    /** The worker hands the client back, or calls RemoveClient. */
    | Return(w: Worker)
    | Remove(w: Worker)

  predicate Enabled(h: Hub, s: Step) {
    match s
    case Admit(c) => h.handing.None? && h.admitted.None? && c !in h.processing
    case Add => h.handing.None? && h.admitted.Some?
    case Offer(c) => h.handing.None? && c in h.listed && c in h.processing
    case Push => h.handing.Some?
    case Take(w) => h.queue != [] && w !in h.held
    case Return(w) => w in h.held
    case Remove(w) => h.handing.None? && w in h.held
  }

  function WithoutFirst(s: seq<Client>, c: Client): seq<Client> {
    if s == [] then [] else if s[0] == c then s[1..] else [s[0]] + WithoutFirst(s[1..], c)
  }

  function Apply(h: Hub, s: Step): Hub
    requires Enabled(h, s)
  {
    match s
    case Admit(c) =>
      if |h.listed| < MAX_CLIENTS then h.(admitted := Some(c), processing := h.processing[c := false]) else h
    case Add => h.(admitted := None, listed := h.listed + [h.admitted.value])
    case Offer(c) => if h.processing[c] then h else h.(processing := h.processing[c := true], handing := Some(c))
    case Push => h.(handing := None, queue := h.queue + [h.handing.value])
    case Take(w) => h.(queue := h.queue[1..], held := h.held[w := h.queue[0]])
    case Return(w) => h.(held := h.held - {w}, processing := h.processing[h.held[w] := false])
    case Remove(w) =>
      if h.held[w] in h.listed then
        h.(held := h.held - {w}, listed := WithoutFirst(h.listed, h.held[w]), processing := h.processing - {h.held[w]})
      else h.(held := h.held - {w})
  }

  // ---------------------------------------------------------------------------------------
  // What every state keeps

  predicate Distinct(s: seq<Client>) { forall i, j | 0 <= i < j < |s| :: s[i] != s[j] }

  /** The clients that somebody is busy with. */
  ghost predicate Busy(h: Hub, c: Client) { h.handing == Some(c) || c in h.queue || c in h.held.Values }

  ghost predicate Apart(h: Hub) {
    && Distinct(h.queue)
    && (forall v, w | v in h.held && w in h.held && h.held[v] == h.held[w] :: v == w)
    && (forall w <- h.held :: h.held[w] !in h.queue && h.handing != Some(h.held[w]))
    && (h.handing.Some? ==> h.handing.value !in h.queue)
  }

  ghost predicate Listed(h: Hub) {
    && Distinct(h.listed)
    && (forall c :: c in h.processing <==> c in h.listed || h.admitted == Some(c))
    && (h.admitted.Some? ==> h.admitted.value !in h.listed && !h.processing[h.admitted.value])
    && |h.listed| + (if h.admitted.Some? then 1 else 0) <= MAX_CLIENTS
  }

  /** The flag is set exactly for the clients that somebody is busy with, and these are allocated. */
  ghost predicate Flagged(h: Hub) {
    forall c :: Busy(h, c) <==> c in h.processing && h.processing[c]
  }

  ghost predicate Inv(h: Hub) { Apart(h) && Listed(h) && Flagged(h) }

  lemma {:induction false} WithoutFirstIs(s: seq<Client>, c: Client)
    requires Distinct(s)
    ensures Distinct(WithoutFirst(s, c)) && c !in WithoutFirst(s, c)
    ensures forall d :: d in WithoutFirst(s, c) <==> d in s && d != c
    ensures |WithoutFirst(s, c)| == if c in s then |s| - 1 else |s|
  {
    if s != [] {
      WithoutFirstIs(s[1..], c);
      if s[0] != c { assert s[0] !in s[1..]; }
    }
  }

  lemma InList(h: Hub, c: Client)
    requires Inv(h) && Busy(h, c)
    ensures c in h.listed
  {
  }

  lemma AdmitKeeps(h: Hub, c: Client)
    requires Inv(h) && Enabled(h, Admit(c))
    ensures Inv(Apply(h, Admit(c)))
  {
    var q := Apply(h, Admit(c));
    assert forall d :: Busy(q, d) <==> Busy(h, d);
    assert !Busy(h, c);
  }

  lemma AddKeeps(h: Hub)
    requires Inv(h) && Enabled(h, Add)
    ensures Inv(Apply(h, Add))
  {
    var q := Apply(h, Add);
    assert forall d :: Busy(q, d) <==> Busy(h, d);
    assert q.listed[|h.listed|] == h.admitted.value;
    assert forall d :: d in q.listed <==> d in h.listed || h.admitted == Some(d);
  }

  lemma OfferKeeps(h: Hub, c: Client)
    requires Inv(h) && Enabled(h, Offer(c))
    ensures Inv(Apply(h, Offer(c)))
  {
    var q := Apply(h, Offer(c));
    if !h.processing[c] {
      assert !Busy(h, c);
      assert forall d :: Busy(q, d) <==> Busy(h, d) || d == c;
    }
  }

  lemma PushKeeps(h: Hub)
    requires Inv(h) && Enabled(h, Push)
    ensures Inv(Apply(h, Push))
  {
    var q, c := Apply(h, Push), h.handing.value;
    assert q.queue[|h.queue|] == c;
    assert forall d :: d in q.queue <==> d in h.queue || d == c;
    assert forall d :: Busy(q, d) <==> Busy(h, d);
  }

  lemma TakeKeeps(h: Hub, w: Worker)
    requires Inv(h) && Enabled(h, Take(w))
    ensures Inv(Apply(h, Take(w)))
  {
    var q, c := Apply(h, Take(w)), h.queue[0];
    assert h.queue == [c] + q.queue;
    assert q.held[w] == c;
    forall d ensures Busy(q, d) <==> Busy(h, d) {
      if d in h.held.Values {
        var v :| v in h.held && h.held[v] == d;
        assert q.held[v] == d;
      }
    }
  }

  /** Letting go of a client leaves everybody else's alone. */
  lemma LetGo(h: Hub, w: Worker, d: Client)
    requires Apart(h) && w in h.held
    ensures d in (h.held - {w}).Values <==> d in h.held.Values && d != h.held[w]
  {
    if d in h.held.Values && d != h.held[w] {
      var v :| v in h.held && h.held[v] == d;
      assert v in h.held - {w} && (h.held - {w})[v] == d;
    }
  }

  lemma ReturnKeeps(h: Hub, w: Worker)
    requires Inv(h) && Enabled(h, Return(w))
    ensures Inv(Apply(h, Return(w)))
  {
    var q, c := Apply(h, Return(w)), h.held[w];
    assert Busy(h, c);
    forall d ensures Busy(q, d) <==> Busy(h, d) && d != c { LetGo(h, w, d); }
  }

  lemma RemoveKeeps(h: Hub, w: Worker)
    requires Inv(h) && Enabled(h, Remove(w))
    ensures Inv(Apply(h, Remove(w)))
  {
    var q, c := Apply(h, Remove(w)), h.held[w];
    InList(h, c);
    WithoutFirstIs(h.listed, c);
    forall d ensures Busy(q, d) <==> Busy(h, d) && d != c { LetGo(h, w, d); }
  }

  lemma StepKeeps(h: Hub, s: Step)
    requires Inv(h) && Enabled(h, s)
    ensures Inv(Apply(h, s))
  {
    hide Inv;
    match s
    case Admit(c) => AdmitKeeps(h, c);
    case Add => AddKeeps(h);
    case Offer(c) => OfferKeeps(h, c);
    case Push => PushKeeps(h);
    case Take(w) => TakeKeeps(h, w);
    case Return(w) => ReturnKeeps(h, w);
    case Remove(w) => RemoveKeeps(h, w);
  }

  // ---------------------------------------------------------------------------------------
  // Runs

  ghost predicate StepAt(states: seq<Hub>, steps: seq<Step>, i: nat)
    requires i < |steps| && |states| == |steps| + 1
  {
    Enabled(states[i], steps[i]) && states[i + 1] == Apply(states[i], steps[i])
  }

  ghost predicate Run(states: seq<Hub>, steps: seq<Step>) {
    && |states| == |steps| + 1 && states[0] == EMPTY_HUB
    && forall i: nat | i < |steps| :: StepAt(states, steps, i)
  }

  lemma {:induction false} RunKeeps(states: seq<Hub>, steps: seq<Step>, i: nat)
    requires Run(states, steps) && i < |states|
    ensures Inv(states[i])
  {
    if i > 0 {
      RunKeeps(states, steps, i - 1);
      assert StepAt(states, steps, i - 1);
      hide Inv;
      StepKeeps(states[i - 1], steps[i - 1]);
    }
  }

  ghost function Workers(h: Hub, c: Client): set<Worker> { set w | w in h.held && h.held[w] == c }

  /**
   * Every allocated client is idle, or on its way to the queue, or queued once, or held by one worker; a
   * deleted client is in no list, queue or worker's hands.
   */
  lemma OneOwner(states: seq<Hub>, steps: seq<Step>, i: nat, c: Client)
    requires Run(states, steps) && i < |states|
    ensures var h := states[i];
            (if h.handing == Some(c) then 1 else 0) + multiset(h.queue)[c] + |Workers(h, c)| ==
            (if c in h.processing && h.processing[c] then 1 else 0)
    ensures c !in states[i].processing ==> c !in states[i].listed && !Busy(states[i], c)
    ensures |states[i].listed| <= MAX_CLIENTS
  {
    RunKeeps(states, steps, i);
    var h := states[i];
    CountInQueue(h.queue, c);
    if c in h.held.Values {
      var w :| w in h.held && h.held[w] == c;
      assert Workers(h, c) == {w};
    } else {
      assert Workers(h, c) == {};
    }
    assert Busy(h, c) <==> c in h.processing && h.processing[c];
  }

  lemma {:induction false} CountInQueue(s: seq<Client>, c: Client)
    requires Distinct(s)
    ensures multiset(s)[c] == if c in s then 1 else 0
  {
    if s != [] {
      CountInQueue(s[1..], c);
      assert s == [s[0]] + s[1..];
    }
  }

  /** RemoveClient always finds the client it is called for, so that it is deleted exactly once. */
  lemma RemoveFinds(states: seq<Hub>, steps: seq<Step>, i: nat)
    requires Run(states, steps) && i < |steps| && steps[i].Remove?
    ensures Enabled(states[i], steps[i])
    ensures var h := states[i];
            h.held[steps[i].w] in h.listed && states[i + 1].processing == h.processing - {h.held[steps[i].w]}
  {
    RunKeeps(states, steps, i);
    assert StepAt(states, steps, i);
    InList(states[i], states[i].held[steps[i].w]);
  }

  /** While a worker holds a client, no other thread's step deletes it, hands it out again or clears its flag. */
  lemma HeldUndisturbed(h: Hub, s: Step, w: Worker)
    requires Inv(h) && Enabled(h, s) && w in h.held && s != Return(w) && s != Remove(w)
    ensures var q, c := Apply(h, s), h.held[w];
            && w in q.held && q.held[w] == c && c in q.processing && q.processing[c]
            && c !in q.queue && q.handing != Some(c)
  {
    var c := h.held[w];
    assert Busy(h, c);
    StepKeeps(h, s);
    var q := Apply(h, s);
    assert w in q.held && q.held[w] == c;
    assert Busy(q, c);
  }
}

/** The select thread's and the workers' methods on the shared deques; each body runs under the locks it names. */
module SelectThread {
  import opened Options
  import opened ClientHandOff

  class CSelectThread {
    var processing: map<Client, bool>
    var clients: seq<Client>
    var clientQueue: seq<Client>
    ghost var admitted: Option<Client>
    ghost var handing: Option<Client>
    ghost var held: map<Worker, Client>

    ghost function State(): Hub
      reads this
    {
      Hub(processing, clients, admitted, handing, clientQueue, held)
    }

    ghost predicate Valid()
      reads this
    {
      Inv(State())
    }

    constructor ()
      ensures State() == EMPTY_HUB && Valid()
    {
      processing, clients, clientQueue, admitted, handing, held := map[], [], [], None, None, map[];
    }

    /** CClient::setProcessing: returns the old flag. */
    method SetProcessing(c: Client, b: bool) returns (old_: bool)
      requires c in processing
      modifies this`processing
      ensures processing == old(processing)[c := b] && old_ == old(processing)[c]
    {
      old_ := processing[c];
      processing := processing[c := b];
    }

    /** FindWorker up to and including its test-and-set; the result says whether the client must be queued. */
    method ClaimClient(c: Client) returns (claimed: bool)
      requires Valid() && handing.None? && c in clients && c in processing
      modifies this`processing, this`handing
      ensures Valid() && State() == Apply(old(State()), Offer(c))
      ensures claimed <==> handing == Some(c)
      ensures claimed <==> !old(processing)[c]
    {
      StepKeeps(State(), Offer(c));
      hide Inv;
      var was := SetProcessing(c, true);
      claimed := !was;
      if claimed { handing := Some(c); }
      assert was ==> processing == old(processing);
    }

    /** The rest of FindWorker, under clients_mutex. */
    method QueueClient(c: Client)
      requires Valid() && handing == Some(c)
      modifies this`clientQueue, this`handing
      ensures Valid() && State() == Apply(old(State()), Push)
    {
      StepKeeps(State(), Push);
      hide Inv;
      clientQueue := clientQueue + [c];
      handing := None;
    }

    /** A worker takes the first client of the queue. */
    method TakeClient(ghost w: Worker) returns (c: Client)
      requires Valid() && clientQueue != [] && w !in held
      modifies this`clientQueue, this`held
      ensures Valid() && State() == Apply(old(State()), Take(w)) && w in held && held[w] == c
      ensures c in processing && processing[c] && c !in clientQueue
    {
      StepKeeps(State(), Take(w));
      c := clientQueue[0];
      clientQueue := clientQueue[1..];
      held := held[w := c];
      assert Busy(State(), c);
    }

    /** setProcessing(false) at the end of a worker's round. */
    method ReturnClient(ghost w: Worker, c: Client)
      requires Valid() && w in held && held[w] == c
      modifies this`processing, this`held
      ensures Valid() && State() == Apply(old(State()), Return(w))
    {
      StepKeeps(State(), Return(w));
      assert Busy(State(), c);
      assert c in processing;
      hide Inv;
      var was := SetProcessing(c, false);
      held := held - {w};
    }

    /** RemoveClient: look for the client, take it out of the deque and delete it. */
    method RemoveClient(ghost w: Worker, c: Client) returns (found: bool)
      requires Valid() && handing.None? && w in held && held[w] == c
      modifies this`processing, this`clients, this`held
      ensures Valid() && State() == Apply(old(State()), Remove(w))
      ensures found && c !in processing
    {
      hide Inv, WithoutFirst;
      StepKeeps(State(), Remove(w));
      HeldIsListed(State(), w);
      held := held - {w};
      var i := Find(clients, c);
      found := i < |clients|;
      if found {
        WithoutFirstAt(clients, c, i);
        clients := clients[..i] + clients[i + 1..];
        processing := processing - {c};
      }
    }
  }

  method Find(s: seq<Client>, c: Client) returns (i: nat)
    ensures i <= |s| && (forall k | 0 <= k < i :: s[k] != c) && (i < |s| ==> s[i] == c)
  {
    i := 0;
    while i < |s| && s[i] != c
      invariant i <= |s| && forall k | 0 <= k < i :: s[k] != c
    {
      i := i + 1;
    }
  }

  lemma HeldIsListed(h: Hub, w: Worker)
    requires Inv(h) && w in h.held
    ensures h.held[w] in h.listed
  {
    assert Busy(h, h.held[w]);
    InList(h, h.held[w]);
  }

  lemma {:induction false} WithoutFirstAt(s: seq<Client>, c: Client, i: nat)
    requires i < |s| && s[i] == c && forall k | 0 <= k < i :: s[k] != c
    ensures WithoutFirst(s, c) == s[..i] + s[i + 1..]
  {
    if i > 0 { WithoutFirstAt(s[1..], c, i - 1); }
  }
}
