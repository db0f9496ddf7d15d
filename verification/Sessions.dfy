/**
 * CSessionMgr as a transition system. Each step is what one thread does while it holds sess_mutex;
 * between two steps any other thread may run.
 */
module Sessions {
  import opened Options

  type Sid = string
  type Ref = nat
  type Client = nat

  datatype User = User(ident: string, lastUsed: int, waitLock: int, refCount: int)

  /**
   * Where a caller that was given a user is: inside getUser or lockUser (asleep while it has not been
   * notified), between getUser or lockUser and the next unlockUser or releaseUser, or after unlockUser.
   */
  datatype Phase =
    | Waiting(ref: Ref, asleep: bool, touch: bool)
    | Holding(ref: Ref)
    | Unlocked(ref: Ref)

  /** users: the allocated users; doomed: those taken out of mSessions and not yet deleted. */
  datatype Manager = Manager(sessions: map<Sid, Ref>, users: map<Ref, User>, doomed: set<Ref>,
      clients: map<Client, Phase>)

  const NO_SESSIONS := Manager(map[], map[], {}, map[])

  datatype Step =
    | Generate(sid: Sid, made: Ref, ident: string, now: int)
    | Get(c: Client, sid: Sid, ident: string, update: bool, now: int)
    /** A waiting caller goes once more through its loop. */
    | Retry(c: Client, now: int)
    | Release(c: Client)
    | Unlock(c: Client)
    | Lock(c: Client)
    | Remove(sid: Sid)
    /** The end of RemoveSession, outside the mutex. */
    | Delete(ref: Ref)
    /** A wait returns although nobody notified. */
    | Wake(c: Client)

  /** Callers use a user only as getUser, (unlockUser, lockUser)*, releaseUser. */
  predicate Enabled(m: Manager, s: Step) {
    match s
    case Generate(_, made, _, _) => made !in m.users
    case Get(c, _, _, _, _) => c !in m.clients
    case Retry(c, _) => c in m.clients && m.clients[c].Waiting? && !m.clients[c].asleep && m.clients[c].ref in m.users
    case Release(c) => c in m.clients && m.clients[c].Holding? && m.clients[c].ref in m.users
    case Unlock(c) => c in m.clients && m.clients[c].Holding? && m.clients[c].ref in m.users
    case Lock(c) => c in m.clients && m.clients[c].Unlocked? && m.clients[c].ref in m.users
    case Remove(_) => true
    case Delete(ref) => ref in m.doomed
    case Wake(c) => c in m.clients && m.clients[c].Waiting?
  }

  function Awoken(p: Phase): Phase { if p.Waiting? then p.(asleep := false) else p }

  /** sess_cond->notify_all wakes the waiters of every user. */
  function NotifyAll(clients: map<Client, Phase>): map<Client, Phase> {
    map c | c in clients :: Awoken(clients[c])
  }

  /** The loop of getUser and lockUser, up to its next wait. */
  function Acquire(m: Manager, c: Client, ref: Ref, touch: bool, now: int): Manager
    requires ref in m.users
  {
    var u := m.users[ref];
    if u.waitLock > 0 then m.(clients := m.clients[c := Waiting(ref, true, touch)])
    else m.(clients := m.clients[c := Holding(ref)],
            users := m.users[ref := u.(waitLock := u.waitLock + 1, lastUsed := if touch then now else u.lastUsed)])
  }

  function CanGet(m: Manager, sid: Sid, ident: string): bool {
    sid in m.sessions && m.sessions[sid] in m.users && m.users[m.sessions[sid]].ident == ident
  }

  function DoGet(m: Manager, c: Client, sid: Sid, ident: string, update: bool, now: int): Manager {
    if !CanGet(m, sid, ident) then m
    else
      var ref := m.sessions[sid];
      var u := m.users[ref];
      Acquire(m.(users := m.users[ref := u.(refCount := u.refCount + 1)]), c, ref, update, now)
  }

  function DoRelease(m: Manager, c: Client): Manager
    requires c in m.clients && m.clients[c].ref in m.users
  {
    var ref := m.clients[c].ref;
    var u := m.users[ref];
    var rest := m.clients - {c};
    m.(users := m.users[ref := u.(refCount := u.refCount - 1, waitLock := u.waitLock - 1)],
       clients := if u.refCount - 1 > 0 then NotifyAll(rest) else rest)
  }

  function DoUnlock(m: Manager, c: Client): Manager
    requires c in m.clients && m.clients[c].ref in m.users
  {
    var ref := m.clients[c].ref;
    var u := m.users[ref];
    var rest := m.clients[c := Unlocked(ref)];
    m.(users := m.users[ref := u.(waitLock := u.waitLock - 1)],
       clients := if u.refCount > 1 then NotifyAll(rest) else rest)
  }

  predicate Removable(m: Manager, sid: Sid) {
    sid in m.sessions && m.sessions[sid] in m.users && m.users[m.sessions[sid]].refCount <= 0
  }

  function Apply(m: Manager, s: Step): Manager
    requires Enabled(m, s)
  {
    match s
    case Generate(sid, made, ident, now) =>
      // an existing session keeps its user, and the new one is in nobody's hands
      if sid in m.sessions then m.(users := m.users[made := User(ident, now, 0, 0)])
      else m.(users := m.users[made := User(ident, now, 0, 0)], sessions := m.sessions[sid := made])
    case Get(c, sid, ident, update, now) => DoGet(m, c, sid, ident, update, now)
    case Retry(c, now) => Acquire(m, c, m.clients[c].ref, m.clients[c].touch, now)
    case Release(c) => DoRelease(m, c)
    case Unlock(c) => DoUnlock(m, c)
    case Lock(c) => Acquire(m, c, m.clients[c].ref, false, 0)
    case Remove(sid) =>
      if Removable(m, sid) then m.(sessions := m.sessions - {sid}, doomed := m.doomed + {m.sessions[sid]}) else m
    case Delete(ref) => m.(doomed := m.doomed - {ref}, users := m.users - {ref})
    case Wake(c) => m.(clients := m.clients[c := m.clients[c].(asleep := false)])
  }

  // ---------------------------------------------------------------------------------------
  // What every state keeps

  ghost function Refs(clients: map<Client, Phase>, r: Ref): set<Client> { set c | c in clients && clients[c].ref == r }
  ghost function Holders(clients: map<Client, Phase>, r: Ref): set<Client> {
    set c | c in clients && clients[c] == Holding(r)
  }

  ghost predicate CountedAt(u: User, clients: map<Client, Phase>, r: Ref) {
    u.refCount == |Refs(clients, r)| && u.waitLock == |Holders(clients, r)| <= 1
  }

  /** refCount counts the callers that refer to the user, waitLock those that hold it: at most one. */
  ghost predicate Counted(users: map<Ref, User>, clients: map<Client, Phase>) {
    forall r <- users :: CountedAt(users[r], clients, r)
  }

  /** Every caller's user is allocated and is still in mSessions. */
  ghost predicate Alive(sessions: map<Sid, Ref>, users: map<Ref, User>, doomed: set<Ref>, clients: map<Client, Phase>) {
    && doomed <= users.Keys
    && (forall sid <- sessions :: sessions[sid] in users && sessions[sid] !in doomed)
    && (forall a, b | a in sessions && b in sessions :: sessions[a] == sessions[b] ==> a == b)
    && (forall c <- clients :: clients[c].ref in users && clients[c].ref in sessions.Values)
  }

  /** A caller sleeps un-notified only while the user is held. */
  ghost predicate Notified(users: map<Ref, User>, clients: map<Client, Phase>) {
    forall c <- clients :: clients[c].Waiting? && clients[c].asleep && clients[c].ref in users ==>
        users[clients[c].ref].waitLock > 0
  }

  ghost predicate Inv(m: Manager) {
    Counted(m.users, m.clients) && Alive(m.sessions, m.users, m.doomed, m.clients) && Notified(m.users, m.clients)
  }

  // ---------------------------------------------------------------------------------------
  // Every step keeps it

  /** Moving one caller of r to another phase moves it in or out of the sets of r only. */
  lemma MovePhase(clients: map<Client, Phase>, c: Client, p: Phase, r: Ref)
    requires c in clients ==> clients[c].ref == p.ref
    ensures r != p.ref ==> Refs(clients[c := p], r) == Refs(clients, r)
    ensures r != p.ref ==> Holders(clients[c := p], r) == Holders(clients, r)
    ensures r == p.ref ==> Refs(clients[c := p], r) == Refs(clients, r) + {c}
    ensures r == p.ref ==>
            Holders(clients[c := p], r) == (if p.Holding? then Holders(clients, r) + {c} else Holders(clients, r) - {c})
  {
  }

  lemma DropPhase(clients: map<Client, Phase>, c: Client, r: Ref)
    requires c in clients
    ensures r != clients[c].ref ==> Refs(clients - {c}, r) == Refs(clients, r)
    ensures r != clients[c].ref ==> Holders(clients - {c}, r) == Holders(clients, r)
    ensures r == clients[c].ref ==> Refs(clients - {c}, r) == Refs(clients, r) - {c}
    ensures r == clients[c].ref ==> Holders(clients - {c}, r) == Holders(clients, r) - {c}
  {
  }

  lemma NotifyKeepsSets(clients: map<Client, Phase>, r: Ref)
    ensures Refs(NotifyAll(clients), r) == Refs(clients, r) && Holders(NotifyAll(clients), r) == Holders(clients, r)
  {
  }

  lemma NotifyCounted(users: map<Ref, User>, clients: map<Client, Phase>)
    requires Counted(users, clients)
    ensures Counted(users, NotifyAll(clients))
  {
    forall r <- users ensures CountedAt(users[r], NotifyAll(clients), r) { NotifyKeepsSets(clients, r); }
  }

  lemma NobodyRefers(clients: map<Client, Phase>, r: Ref)
    requires Refs(clients, r) == {}
    ensures forall c <- clients :: clients[c].ref != r
  {
    forall c <- clients ensures clients[c].ref != r { assert c !in Refs(clients, r); }
  }

  lemma HeldBy(clients: map<Client, Phase>, c: Client)
    requires c in clients && clients[c].Holding? && |Holders(clients, clients[c].ref)| <= 1
    ensures Holders(clients, clients[c].ref) == {c}
    ensures forall d | d in clients && clients[d] == clients[c] :: d == c
  {
    var h := Holders(clients, clients[c].ref);
    assert c in h;
    assert |h - {c}| == |h| - 1;
    assert h - {c} == {};
    forall d | d in clients && clients[d] == clients[c] ensures d == c {
      assert d in h && d !in h - {c};
    }
  }

  ghost predicate CountedElsewhere(users: map<Ref, User>, clients: map<Client, Phase>, x: Ref) {
    forall r <- users :: r != x ==> CountedAt(users[r], clients, r)
  }

  lemma MoveCounted(users: map<Ref, User>, clients: map<Client, Phase>, c: Client, p: Phase, u: User)
    requires p.ref in users && (c in clients ==> clients[c].ref == p.ref)
    requires CountedElsewhere(users, clients, p.ref) && CountedAt(u, clients[c := p], p.ref)
    ensures Counted(users[p.ref := u], clients[c := p])
  {
    hide CountedAt;
    forall r <- users | r != p.ref ensures CountedAt(users[r], clients[c := p], r) {
      assert CountedAt(users[r], clients, r);
      CountedMoved(users[r], clients, c, p, r);
    }
  }

  lemma CountedMoved(u: User, clients: map<Client, Phase>, c: Client, p: Phase, r: Ref)
    requires CountedAt(u, clients, r) && r != p.ref && (c in clients ==> clients[c].ref == p.ref)
    ensures CountedAt(u, clients[c := p], r)
  {
    MovePhase(clients, c, p, r);
  }

  lemma DropCounted(users: map<Ref, User>, clients: map<Client, Phase>, c: Client, u: User)
    requires c in clients && clients[c].ref in users
    requires Counted(users, clients) && CountedAt(u, clients - {c}, clients[c].ref)
    ensures Counted(users[clients[c].ref := u], clients - {c})
  {
    forall r <- users | r != clients[c].ref ensures CountedAt(users[r], clients - {c}, r) {
      assert CountedAt(users[r], clients, r);
      DropPhase(clients, c, r);
    }
  }

  /** Callers may move between users that are alive. */
  lemma AliveFrame(sessions: map<Sid, Ref>, users: map<Ref, User>, doomed: set<Ref>, clients: map<Client, Phase>,
      us: map<Ref, User>, cs: map<Client, Phase>)
    requires Alive(sessions, users, doomed, clients) && users.Keys <= us.Keys
    requires forall c <- cs :: cs[c].ref in users && cs[c].ref in sessions.Values
    ensures Alive(sessions, us, doomed, cs)
  {
  }

  /**
   * A caller that refers to the user without holding it, or a new one, goes through the loop of getUser or
   * lockUser.
   */
  ghost predicate MayAcquire(m: Manager, c: Client, ref: Ref) {
    && ref in m.users && ref in m.sessions.Values
    && (c in m.clients ==> m.clients[c].ref == ref && !m.clients[c].Holding?)
    && CountedElsewhere(m.users, m.clients, ref)
    && m.users[ref].refCount == |Refs(m.clients, ref) + {c}| && m.users[ref].waitLock == |Holders(m.clients, ref)| <= 1
  }

  lemma AcquireCounted(m: Manager, c: Client, ref: Ref, touch: bool, now: int)
    requires MayAcquire(m, c, ref)
    ensures var q := Acquire(m, c, ref, touch, now); Counted(q.users, q.clients)
  {
    var q, u := Acquire(m, c, ref, touch, now), m.users[ref];
    var p := q.clients[c];
    JoinsRefs(m.clients, c, p, u, q.users[ref]);
    hide CountedAt, CountedElsewhere;
    MoveCounted(m.users, m.clients, c, p, q.users[ref]);
    assert q.users == m.users[ref := q.users[ref]] && q.clients == m.clients[c := p];
  }

  /** A caller that refers to the user, and holds it or waits for it, is counted. */
  lemma JoinsRefs(clients: map<Client, Phase>, c: Client, p: Phase, u: User, v: User)
    requires c in clients ==> clients[c].ref == p.ref && !clients[c].Holding?
    requires u.refCount == |Refs(clients, p.ref) + {c}| && u.waitLock == |Holders(clients, p.ref)| <= 1
    requires v.refCount == u.refCount && v.waitLock == u.waitLock + (if p.Holding? then 1 else 0) <= 1
    ensures CountedAt(v, clients[c := p], p.ref)
  {
    MovePhase(clients, c, p, p.ref);
    var h := Holders(clients, p.ref);
    assert c !in h;
    assert h - {c} == h;
  }

  lemma AcquireKeeps(m: Manager, c: Client, ref: Ref, touch: bool, now: int)
    requires MayAcquire(m, c, ref)
    requires Alive(m.sessions, m.users, m.doomed, m.clients) && Notified(m.users, m.clients)
    ensures Inv(Acquire(m, c, ref, touch, now))
  {
    hide Counted;
    AcquireCounted(m, c, ref, touch, now);
    var q := Acquire(m, c, ref, touch, now);
    AliveFrame(m.sessions, m.users, m.doomed, m.clients, q.users, q.clients);
  }

  lemma GetCounted(users: map<Ref, User>, clients: map<Client, Phase>, c: Client, ref: Ref, u: User)
    requires Counted(users, clients) && c !in clients && ref in users
    requires u == users[ref].(refCount := users[ref].refCount + 1)
    ensures CountedElsewhere(users[ref := u], clients, ref)
    ensures u.refCount == |Refs(clients, ref) + {c}| && u.waitLock == |Holders(clients, ref)| <= 1
  {
    assert CountedAt(users[ref], clients, ref);
    assert c !in Refs(clients, ref);
  }

  lemma GetKeeps(m: Manager, c: Client, sid: Sid, ident: string, update: bool, now: int)
    requires Inv(m) && c !in m.clients
    ensures Inv(DoGet(m, c, sid, ident, update, now))
  {
    hide Counted, CountedElsewhere;
    if CanGet(m, sid, ident) {
      var ref := m.sessions[sid];
      var u := m.users[ref].(refCount := m.users[ref].refCount + 1);
      var q := m.(users := m.users[ref := u]);
      AliveFrame(m.sessions, m.users, m.doomed, m.clients, q.users, m.clients);
      GetCounted(m.users, m.clients, c, ref, u);
      assert MayAcquire(q, c, ref);
      assert Notified(q.users, q.clients);
      hide Inv, MayAcquire, Alive, Notified;
      AcquireKeeps(q, c, ref, update, now);
    }
  }

  lemma AcquireAgainKeeps(m: Manager, c: Client, touch: bool, now: int)
    requires Inv(m) && c in m.clients && !m.clients[c].Holding?
    ensures m.clients[c].ref in m.users && Inv(Acquire(m, c, m.clients[c].ref, touch, now))
  {
    var ref := m.clients[c].ref;
    assert CountedAt(m.users[ref], m.clients, ref);
    assert Refs(m.clients, ref) + {c} == Refs(m.clients, ref);
    assert MayAcquire(m, c, ref);
    hide MayAcquire;
    AcquireKeeps(m, c, ref, touch, now);
  }

  lemma ReleaseCounted(users: map<Ref, User>, clients: map<Client, Phase>, c: Client, u: User)
    requires Counted(users, clients) && c in clients && clients[c].Holding? && clients[c].ref in users
    requires u == var o := users[clients[c].ref]; o.(refCount := o.refCount - 1, waitLock := o.waitLock - 1)
    ensures Counted(users[clients[c].ref := u], clients - {c})
    ensures u.refCount <= 0 ==> forall d | d in clients && d != c :: clients[d].ref != clients[c].ref
    ensures u.waitLock == 0
  {
    var ref, rest := clients[c].ref, clients - {c};
    assert CountedAt(users[ref], clients, ref);
    HeldBy(clients, c);
    DropPhase(clients, c, ref);
    assert c in Refs(clients, ref);
    assert CountedAt(u, rest, ref);
    DropCounted(users, clients, c, u);
    if u.refCount <= 0 {
      assert Refs(rest, ref) == {};
      NobodyRefers(rest, ref);
      forall d | d in clients && d != c ensures clients[d].ref != ref { assert d in rest; }
    }
  }

  lemma ReleaseKeeps(m: Manager, c: Client)
    requires Inv(m) && c in m.clients && m.clients[c].Holding?
    ensures m.clients[c].ref in m.users && Inv(DoRelease(m, c))
  {
    hide Counted;
    var ref, rest, q := m.clients[c].ref, m.clients - {c}, DoRelease(m, c);
    ReleaseCounted(m.users, m.clients, c, q.users[ref]);
    NotifyCounted(q.users, rest);
    AliveFrame(m.sessions, m.users, m.doomed, m.clients, q.users, q.clients);
  }

  lemma UnlockCounted(users: map<Ref, User>, clients: map<Client, Phase>, c: Client, u: User)
    requires Counted(users, clients) && c in clients && clients[c].Holding? && clients[c].ref in users
    requires u == var o := users[clients[c].ref]; o.(waitLock := o.waitLock - 1)
    ensures Counted(users[clients[c].ref := u], clients[c := Unlocked(clients[c].ref)])
    ensures u.refCount <= 1 ==> forall d | d in clients && d != c :: clients[d].ref != clients[c].ref
  {
    var ref := clients[c].ref;
    var refs := Refs(clients, ref);
    assert CountedAt(users[ref], clients, ref);
    HeldBy(clients, c);
    MovePhase(clients, c, Unlocked(ref), ref);
    assert c in refs && refs + {c} == refs;
    assert CountedAt(u, clients[c := Unlocked(ref)], ref);
    MoveCounted(users, clients, c, Unlocked(ref), u);
    if u.refCount <= 1 {
      assert |refs - {c}| == 0;
      forall d | d in clients && d != c ensures clients[d].ref != ref { assert d !in refs - {c}; }
    }
  }

  lemma UnlockKeeps(m: Manager, c: Client)
    requires Inv(m) && c in m.clients && m.clients[c].Holding?
    ensures m.clients[c].ref in m.users && Inv(DoUnlock(m, c))
  {
    hide Counted;
    var ref, q := m.clients[c].ref, DoUnlock(m, c);
    UnlockCounted(m.users, m.clients, c, q.users[ref]);
    NotifyCounted(q.users, m.clients[c := Unlocked(ref)]);
    AliveFrame(m.sessions, m.users, m.doomed, m.clients, q.users, q.clients);
  }

  lemma GenerateKeeps(m: Manager, s: Step)
    requires Inv(m) && s.Generate? && Enabled(m, s)
    ensures Inv(Apply(m, s))
  {
    var q := Apply(m, s);
    assert Refs(m.clients, s.made) == {} && Holders(m.clients, s.made) == {};
    forall r <- q.users ensures CountedAt(q.users[r], q.clients, r) {
      if r != s.made { assert CountedAt(m.users[r], m.clients, r); }
    }
    AliveGrows(m, s.sid, s.made, q.users);
  }

  lemma AliveGrows(m: Manager, sid: Sid, ref: Ref, us: map<Ref, User>)
    requires Alive(m.sessions, m.users, m.doomed, m.clients) && m.users.Keys + {ref} == us.Keys && ref !in m.users
    requires m.doomed <= m.users.Keys
    ensures Alive(m.sessions, us, m.doomed, m.clients)
    ensures sid !in m.sessions ==> Alive(m.sessions[sid := ref], us, m.doomed, m.clients)
  {
    var ss := m.sessions[sid := ref];
    if sid !in m.sessions {
      forall c <- m.clients ensures m.clients[c].ref in ss.Values {
        var a :| a in m.sessions && m.sessions[a] == m.clients[c].ref;
        assert ss[a] == m.clients[c].ref;
      }
    }
  }

  lemma RemoveKeeps(m: Manager, sid: Sid)
    requires Inv(m)
    ensures Inv(Apply(m, Remove(sid)))
  {
    if Removable(m, sid) {
      var ref := m.sessions[sid];
      assert CountedAt(m.users[ref], m.clients, ref);
      NobodyRefers(m.clients, ref);
      var ss := m.sessions - {sid};
      forall c <- m.clients ensures m.clients[c].ref in ss.Values {
        var a :| a in m.sessions && m.sessions[a] == m.clients[c].ref;
        assert a in ss && ss[a] == m.clients[c].ref;
      }
    }
  }

  lemma DeleteKeeps(m: Manager, ref: Ref)
    requires Inv(m) && ref in m.doomed
    ensures Inv(Apply(m, Delete(ref)))
  {
  }

  lemma WakeCounted(users: map<Ref, User>, clients: map<Client, Phase>, c: Client)
    requires Counted(users, clients) && c in clients && clients[c].Waiting? && clients[c].ref in users
    ensures Counted(users, clients[c := clients[c].(asleep := false)])
  {
    var ref, p := clients[c].ref, clients[c].(asleep := false);
    assert CountedAt(users[ref], clients, ref);
    MovePhase(clients, c, p, ref);
    assert Refs(clients, ref) + {c} == Refs(clients, ref);
    assert Holders(clients, ref) - {c} == Holders(clients, ref);
    MoveCounted(users, clients, c, p, users[ref]);
    assert users[ref := users[ref]] == users;
  }

  lemma WakeKeeps(m: Manager, c: Client)
    requires Inv(m) && c in m.clients && m.clients[c].Waiting?
    ensures Inv(Apply(m, Wake(c)))
  {
    hide Counted;
    WakeCounted(m.users, m.clients, c);
    AliveFrame(m.sessions, m.users, m.doomed, m.clients, m.users, m.clients[c := m.clients[c].(asleep := false)]);
  }

  lemma StepKeeps(m: Manager, s: Step)
    requires Inv(m) && Enabled(m, s)
    ensures Inv(Apply(m, s))
  {
    hide Inv, Acquire, DoGet, DoRelease, DoUnlock;
    match s
    case Generate(_, _, _, _) => GenerateKeeps(m, s);
    case Get(c, sid, ident, update, now) => GetKeeps(m, c, sid, ident, update, now);
    case Retry(c, now) => AcquireAgainKeeps(m, c, m.clients[c].touch, now);
    case Release(c) => ReleaseKeeps(m, c);
    case Unlock(c) => UnlockKeeps(m, c);
    case Lock(c) => AcquireAgainKeeps(m, c, false, 0);
    case Remove(sid) => RemoveKeeps(m, sid);
    case Delete(ref) => DeleteKeeps(m, ref);
    case Wake(c) => WakeKeeps(m, c);
  }

  // ---------------------------------------------------------------------------------------
  // Runs

  ghost predicate StepAt(states: seq<Manager>, steps: seq<Step>, i: nat)
    requires i < |steps| && |states| == |steps| + 1
  {
    Enabled(states[i], steps[i]) && states[i + 1] == Apply(states[i], steps[i])
  }

  /** Any interleaving of callers that follow getUser, (unlockUser, lockUser)*, releaseUser. */
  ghost predicate Run(states: seq<Manager>, steps: seq<Step>) {
    && |states| == |steps| + 1 && states[0] == NO_SESSIONS
    && forall i: nat | i < |steps| :: StepAt(states, steps, i)
  }

  lemma {:induction false} RunKeeps(states: seq<Manager>, steps: seq<Step>, i: nat)
    requires Run(states, steps) && i < |states|
    ensures Inv(states[i])
  {
    if i > 0 {
      RunKeeps(states, steps, i - 1);
      assert StepAt(states, steps, i - 1);
      hide Inv;
      StepKeeps(states[i - 1], steps[i - 1]);
    }
  }

  /** At most one caller holds a user, and refCount is the number of callers that refer to it, waiting ones included. */
  lemma MutualExclusion(states: seq<Manager>, steps: seq<Step>, i: nat)
    requires Run(states, steps) && i < |states|
    ensures var m := states[i];
            && (forall c, d | c in m.clients && d in m.clients && m.clients[c].Holding? ::
                  m.clients[d] == m.clients[c] ==> c == d)
            && (forall r <- m.users :: m.users[r].refCount == |Refs(m.clients, r)| && 0 <= m.users[r].waitLock <= 1)
            && (forall c <- m.clients :: m.clients[c].Holding? ==>
                m.clients[c].ref in m.users && m.users[m.clients[c].ref].waitLock == 1)
  {
    RunKeeps(states, steps, i);
    var m := states[i];
    forall r <- m.users ensures CountedAt(m.users[r], m.clients, r) { }
    forall c <- m.clients | m.clients[c].Holding?
      ensures m.clients[c].ref in m.users && m.users[m.clients[c].ref].waitLock == 1
      ensures forall d | d in m.clients && m.clients[d] == m.clients[c] :: d == c
    {
      assert CountedAt(m.users[m.clients[c].ref], m.clients, m.clients[c].ref);
      HeldBy(m.clients, c);
    }
  }

  /**
   * A user that somebody refers to is allocated and reachable through its session; what is deleted is in nobody's
   * hands.
   */
  lemma NeverFreedInUse(states: seq<Manager>, steps: seq<Step>, i: nat, c: Client)
    requires Run(states, steps) && i < |states| && c in states[i].clients
    ensures var m := states[i]; var r := m.clients[c].ref;
            r in m.users && r !in m.doomed && exists sid :: sid in m.sessions && m.sessions[sid] == r
  {
    RunKeeps(states, steps, i);
  }

  /** RemoveSession succeeds exactly when the session exists and nobody refers to its user. */
  lemma RemovesExactly(states: seq<Manager>, steps: seq<Step>, i: nat, sid: Sid)
    requires Run(states, steps) && i < |states|
    ensures var m := states[i];
            Removable(m, sid) <==> sid in m.sessions && forall c <- m.clients :: m.clients[c].ref != m.sessions[sid]
  {
    RunKeeps(states, steps, i);
    var m := states[i];
    if sid in m.sessions {
      var ref := m.sessions[sid];
      assert CountedAt(m.users[ref], m.clients, ref);
      if Removable(m, sid) { NobodyRefers(m.clients, ref); }
      else {
        var c :| c in Refs(m.clients, ref);
        assert m.clients[c].ref == ref;
      }
    }
  }

  /** No lost wake-up: once nobody holds a user, no waiter of it sleeps un-notified, and any of them can take it. */
  lemma NoLostWakeup(states: seq<Manager>, steps: seq<Step>, i: nat, c: Client, now: int)
    requires Run(states, steps) && i < |states| && c in states[i].clients && states[i].clients[c].Waiting?
    ensures var m := states[i]; var r := m.clients[c].ref;
            && r in m.users
            && (m.users[r].waitLock == 0 <==> forall d <- m.clients :: m.clients[d] != Holding(r))
            && (m.users[r].waitLock == 0 ==>
                  Enabled(m, Retry(c, now)) && Apply(m, Retry(c, now)).clients[c] == Holding(r))
  {
    RunKeeps(states, steps, i);
    var m := states[i];
    var r := m.clients[c].ref;
    assert CountedAt(m.users[r], m.clients, r);
    if m.users[r].waitLock == 0 {
      forall d <- m.clients ensures m.clients[d] != Holding(r) { assert d !in Holders(m.clients, r); }
    } else {
      var d :| d in Holders(m.clients, r);
      assert m.clients[d] == Holding(r);
    }
  }

  /** The asserts in releaseUser, unlockUser and RemoveSession hold. */
  lemma AssertsHold(states: seq<Manager>, steps: seq<Step>, i: nat)
    requires Run(states, steps) && i < |steps|
    ensures var m := states[i];
            && (steps[i].Release? ==>
                Enabled(m, steps[i]) && var u := m.users[m.clients[steps[i].c].ref]; u.refCount > 0 && u.waitLock > 0)
            && (steps[i].Unlock? ==> Enabled(m, steps[i]) && m.users[m.clients[steps[i].c].ref].waitLock > 0)
            && (steps[i].Remove? && Removable(m, steps[i].sid) ==> m.users[m.sessions[steps[i].sid]].waitLock == 0)
  {
    RunKeeps(states, steps, i);
    var m := states[i];
    assert StepAt(states, steps, i);
    match steps[i]
    case Release(c) => UsesCounted(m, c);
    case Unlock(c) => UsesCounted(m, c);
    case Remove(sid) =>
      if Removable(m, sid) {
        var ref := m.sessions[sid];
        assert CountedAt(m.users[ref], m.clients, ref);
        assert Holders(m.clients, ref) <= Refs(m.clients, ref) == {};
      }
    case _ =>
  }

  lemma UsesCounted(m: Manager, c: Client)
    requires Inv(m) && c in m.clients && m.clients[c].Holding?
    ensures m.clients[c].ref in m.users && m.users[m.clients[c].ref].refCount > 0
    ensures m.users[m.clients[c].ref].waitLock == 1
  {
    var ref := m.clients[c].ref;
    assert CountedAt(m.users[ref], m.clients, ref);
    assert c in Refs(m.clients, ref);
    HeldBy(m.clients, c);
  }

  /** While a caller holds a user, nobody else's step takes it away, unlocks it, or changes when it was last used. */
  lemma HolderUndisturbed(m: Manager, s: Step, c: Client)
    requires Inv(m) && Enabled(m, s) && c in m.clients && m.clients[c].Holding?
    requires s != Release(c) && s != Unlock(c)
    ensures var q, r := Apply(m, s), m.clients[c].ref;
            && c in q.clients && q.clients[c] == Holding(r)
            && r in m.users && r in q.users && q.users[r].waitLock == 1
            && q.users[r].lastUsed == m.users[r].lastUsed && q.users[r].ident == m.users[r].ident
  {
    hide Inv, Acquire, DoGet, DoRelease, DoUnlock, CanGet;
    HeldAlone(m, c);
    var r := m.clients[c].ref;
    match s
    case Get(d, sid, ident, update, now) => GetUndisturbed(m, d, sid, ident, update, now, c);
    case Retry(d, now) => AcquireUndisturbed(m, d, m.clients[d].ref, m.clients[d].touch, now, c);
    case Lock(d) => AcquireUndisturbed(m, d, m.clients[d].ref, false, 0, c);
    case Release(d) => LeaveUndisturbed(m, d, c);
    case Unlock(d) => LeaveUndisturbed(m, d, c);
    case _ =>
  }

  // ---------------------------------------------------------------------------------------
  // When a user was last used

  /** The step makes its caller the holder of user r, and the caller had asked getUser for an update. */
  predicate Updates(m: Manager, s: Step, r: Ref)
    requires Enabled(m, s)
  {
    && (s.Get? || s.Retry?) && s.c in Apply(m, s).clients && Apply(m, s).clients[s.c] == Holding(r)
    && if s.Get? then s.update else m.clients[s.c].touch
  }

  /** A user's time changes in such steps only, and it becomes the time of the step. */
  lemma UsedExactly(m: Manager, s: Step, r: Ref)
    requires Enabled(m, s) && r in m.users && r in Apply(m, s).users
    ensures Apply(m, s).users[r].lastUsed == if Updates(m, s, r) then s.now else m.users[r].lastUsed
  {
  }

  lemma WaitsOn(m: Manager, s: Step, c: Client)
    requires Enabled(m, s) && c in m.clients && m.clients[c].Waiting?
    requires c in Apply(m, s).clients && Apply(m, s).clients[c].Waiting?
    ensures Apply(m, s).clients[c].ref == m.clients[c].ref && Apply(m, s).clients[c].touch == m.clients[c].touch
  {
  }

  /** c waits in every state from b to e. */
  ghost predicate WaitsThrough(states: seq<Manager>, b: nat, e: nat, c: Client)
    requires b <= e <= |states|
  {
    forall i | b <= i < e :: c in states[i].clients && states[i].clients[c].Waiting?
  }

  lemma {:induction false} WaitKept(states: seq<Manager>, steps: seq<Step>, b: nat, e: nat, c: Client)
    requires Run(states, steps) && b < e < |states| && WaitsThrough(states, b, e + 1, c)
    ensures states[e].clients[c].ref == states[b].clients[c].ref
    ensures states[e].clients[c].touch == states[b].clients[c].touch
    decreases e
  {
    hide Enabled, Apply;
    if b < e - 1 {
      WaitKept(states, steps, b, e - 1, c);
    }
    assert StepAt(states, steps, e - 1);
    assert c in states[e - 1].clients;
    WaitsOn(states[e - 1], steps[e - 1], c);
  }

  /**
   * A call of getUser that begins in step b and becomes the holder in step e, however long it waited in between,
   * sets the time of its user to the time of step e when it was to update it, and leaves it alone otherwise.
   */
  lemma TouchedWhenHeld(states: seq<Manager>, steps: seq<Step>, b: nat, e: nat, c: Client, r: Ref)
    requires Run(states, steps) && b <= e < |steps| && steps[b].Get? && steps[b].c == c
    requires e + 1 < |states| && WaitsThrough(states, b + 1, e + 1, c)
    requires c in states[e + 1].clients && states[e + 1].clients[c] == Holding(r)
    ensures e == b || steps[e].Retry?
    ensures r in states[e].users && r in states[e + 1].users
    ensures states[e + 1].users[r].lastUsed == if steps[b].update then steps[e].now else states[e].users[r].lastUsed
  {
    hide Inv, Apply, Enabled;
    RunKeeps(states, steps, e + 1);
    assert StepAt(states, steps, e) && StepAt(states, steps, b);
    if steps[e].Get? { GetIsNew(states[e], steps[e]); }
    BecomesHolder(states[e], steps[e], c);
    HolderKnown(states[e], states[e + 1], steps[e], c, r);
    UsedExactly(states[e], steps[e], r);
    if b < e {
      GetWaits(states[b], steps[b]);
      if b + 1 < e {
        WaitKept(states, steps, b + 1, e, c);
      }
      assert c in states[e].clients;
    }
  }

  lemma GetIsNew(m: Manager, s: Step)
    requires Enabled(m, s) && s.Get?
    ensures s.c !in m.clients
  {
  }

  lemma GetWaits(m: Manager, s: Step)
    requires Enabled(m, s) && s.Get? && s.c in Apply(m, s).clients && Apply(m, s).clients[s.c].Waiting?
    ensures Apply(m, s).clients[s.c].touch == s.update
  {
  }

  lemma BecomesHolder(m: Manager, s: Step, c: Client)
    requires Enabled(m, s) && c in Apply(m, s).clients && Apply(m, s).clients[c].Holding?
    requires c in m.clients ==> m.clients[c].Waiting?
    ensures (s.Get? || s.Retry?) && s.c == c
  {
  }

  lemma HolderKnown(m: Manager, q: Manager, s: Step, c: Client, r: Ref)
    requires Inv(q) && Enabled(m, s) && q == Apply(m, s) && (s.Get? || s.Retry?)
    requires c in q.clients && q.clients[c] == Holding(r)
    ensures r in q.users && r in m.users
  {
    hide Counted, Notified;
  }

  lemma GetUndisturbed(m: Manager, d: Client, sid: Sid, ident: string, update: bool, now: int, c: Client)
    requires c in m.clients && d !in m.clients && m.clients[c].Holding? && m.clients[c].ref in m.users
    requires m.users[m.clients[c].ref].waitLock == 1
    ensures var q, r := DoGet(m, d, sid, ident, update, now), m.clients[c].ref;
            && c in q.clients && q.clients[c] == m.clients[c] && r in q.users && q.users[r].waitLock == 1
            && q.users[r].lastUsed == m.users[r].lastUsed && q.users[r].ident == m.users[r].ident
  {
    hide Acquire;
    if CanGet(m, sid, ident) {
      var ref := m.sessions[sid];
      var u := m.users[ref].(refCount := m.users[ref].refCount + 1);
      AcquireUndisturbed(m.(users := m.users[ref := u]), d, ref, update, now, c);
    }
  }

  lemma AcquireUndisturbed(m: Manager, d: Client, ref: Ref, touch: bool, now: int, c: Client)
    requires c in m.clients && m.clients[c].Holding? && m.clients[c].ref in m.users
    requires m.users[m.clients[c].ref].waitLock == 1
    requires ref in m.users && d != c
    ensures var q := Acquire(m, d, ref, touch, now);
            && c in q.clients && q.clients[c] == m.clients[c]
            && m.clients[c].ref in q.users && q.users[m.clients[c].ref] == m.users[m.clients[c].ref]
  {
  }

  lemma LeaveUndisturbed(m: Manager, d: Client, c: Client)
    requires c in m.clients && d in m.clients && m.clients[c].Holding? && m.clients[d].Holding?
    requires m.clients[d].ref != m.clients[c].ref
    requires m.clients[c].ref in m.users && m.clients[d].ref in m.users
    ensures var q := DoRelease(m, d);
            && c in q.clients && q.clients[c] == m.clients[c]
            && m.clients[c].ref in q.users && q.users[m.clients[c].ref] == m.users[m.clients[c].ref]
    ensures var q := DoUnlock(m, d);
            && c in q.clients && q.clients[c] == m.clients[c]
            && m.clients[c].ref in q.users && q.users[m.clients[c].ref] == m.users[m.clients[c].ref]
  {
  }

  lemma HeldAlone(m: Manager, c: Client)
    requires Inv(m) && c in m.clients && m.clients[c].Holding?
    ensures var r := m.clients[c].ref;
            && r in m.users && m.users[r].waitLock == 1 && r !in m.doomed && m.users[r].refCount > 0
            && forall d <- m.clients :: m.clients[d] == Holding(r) ==> d == c
  {
    UsesCounted(m, c);
    assert CountedAt(m.users[m.clients[c].ref], m.clients, m.clients[c].ref);
    HeldBy(m.clients, c);
  }

  lemma UnreferredExactly(m: Manager, sid: Sid)
    requires Inv(m) && sid in m.sessions && m.sessions[sid] in m.users
    ensures m.users[m.sessions[sid]].refCount <= 0 <==> forall c <- m.clients :: m.clients[c].ref != m.sessions[sid]
  {
    var ref := m.sessions[sid];
    assert CountedAt(m.users[ref], m.clients, ref);
    hide Inv;
    if m.users[ref].refCount <= 0 {
      NobodyRefers(m.clients, ref);
    } else {
      var c :| c in Refs(m.clients, ref);
      assert m.clients[c].ref == ref;
    }
  }

  lemma SessionsAllocated(m: Manager)
    requires Inv(m)
    ensures forall sid <- m.sessions :: m.sessions[sid] in m.users
  {
  }
}

/** CSessionMgr's methods on its own fields. */
module SessionMgr {
  import opened Options
  import opened Sessions

  class CSessionMgr {
    var sessions: map<Sid, Ref>
    var users: map<Ref, User>
    ghost var doomed: set<Ref>
    ghost var clients: map<Client, Phase>

    ghost function State(): Manager
      reads this
    {
      Manager(sessions, users, doomed, clients)
    }

    ghost predicate Valid()
      reads this
    {
      Inv(State())
    }

    constructor ()
      ensures State() == NO_SESSIONS && Valid()
    {
      sessions, users, doomed, clients := map[], map[], {}, map[];
    }

    /** getUser up to its return or its first wait; NULL when the session is unknown or belongs to somebody else. */
    method GetUser(ghost c: Client, sid: Sid, ident: string, update: bool, now: int)
      returns (user: Option<Ref>, held: bool)
      requires Valid() && c !in clients
      modifies this
      ensures Valid() && State() == Apply(old(State()), Get(c, sid, ident, update, now))
      ensures user.Some? <==> sid in old(sessions) && old(users)[old(sessions)[sid]].ident == ident
      ensures user.Some? ==> user == Some(old(sessions)[sid]) && c in clients && clients[c].ref == user.value
      ensures held <==> c in clients && clients[c].Holding?
    {
      hide Inv;
      StepKeeps(State(), Get(c, sid, ident, update, now));
      SessionsAllocated(State());
      user, held := None, false;
      if sid in sessions && users[sessions[sid]].ident == ident {
        var ref := sessions[sid];
        user := Some(ref);
        users := users[ref := users[ref].(refCount := users[ref].refCount + 1)];
        held := TryAcquire(c, ref, update, now);
      }
    }

    /** One pass of the wait loop of getUser and lockUser. */
    method TryAcquire(ghost c: Client, ref: Ref, touch: bool, now: int) returns (held: bool)
      requires ref in users
      modifies this`users, this`clients
      ensures State() == Acquire(old(State()), c, ref, touch, now)
      ensures held <==> clients[c].Holding?
    {
      if users[ref].waitLock > 0 {
        clients := clients[c := Waiting(ref, true, touch)];
        held := false;
      } else {
        var u := users[ref];
        users := users[ref := u.(waitLock := u.waitLock + 1, lastUsed := if touch then now else u.lastUsed)];
        clients := clients[c := Holding(ref)];
        held := true;
      }
    }

    method ReleaseUser(ghost c: Client, user: Ref)
      requires Valid() && c in clients && clients[c] == Holding(user)
      modifies this
      ensures Valid() && user in old(users) && State() == Apply(old(State()), Release(c))
    {
      hide Inv;
      UsesCounted(State(), c);
      StepKeeps(State(), Release(c));
      var u := users[user];
      users := users[user := u.(refCount := u.refCount - 1, waitLock := u.waitLock - 1)];
      clients := clients - {c};
      if users[user].refCount > 0 { clients := NotifyAll(clients); }
    }

    method UnlockUser(ghost c: Client, user: Ref)
      requires Valid() && c in clients && clients[c] == Holding(user)
      modifies this
      ensures Valid() && user in old(users) && State() == Apply(old(State()), Unlock(c))
    {
      hide Inv;
      UsesCounted(State(), c);
      StepKeeps(State(), Unlock(c));
      var u := users[user];
      users := users[user := u.(waitLock := u.waitLock - 1)];
      clients := clients[c := Unlocked(user)];
      if users[user].refCount > 1 { clients := NotifyAll(clients); }
    }

    /** lockUser up to its return or its first wait. */
    method LockUser(ghost c: Client, user: Ref) returns (held: bool)
      requires Valid() && c in clients && clients[c] == Unlocked(user)
      modifies this
      ensures Valid() && user in old(users) && State() == Apply(old(State()), Lock(c))
      ensures held <==> c in clients && clients[c].Holding?
    {
      hide Inv;
      AcquireAgainKeeps(State(), c, false, 0);
      held := TryAcquire(c, user, false, 0);
    }

    /** RemoveSession up to the end of its critical section; the user it took out of the map is deleted afterwards. */
    method RemoveSession(sid: Sid) returns (user: Option<Ref>)
      requires Valid()
      modifies this
      ensures Valid() && State() == Apply(old(State()), Remove(sid))
      ensures user.Some? <==> sid in old(sessions) && forall c <- clients :: clients[c].ref != old(sessions)[sid]
      ensures user.Some? ==> user.value in doomed && sid !in sessions
    {
      hide Inv;
      StepKeeps(State(), Remove(sid));
      SessionsAllocated(State());
      user := None;
      if sid in sessions {
        UnreferredExactly(State(), sid);
        if users[sessions[sid]].refCount <= 0 {
          user := Some(sessions[sid]);
          doomed := doomed + {sessions[sid]};
          sessions := sessions - {sid};
        }
      }
    }
  }
}
