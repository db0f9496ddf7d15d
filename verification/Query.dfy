/**
 * CQuery::Read and CQuery::Execute over a prepared statement that walks through a result set: a reset sends
 * it back to the first row. When a step is refused, and when the transaction lock is granted, is up to
 * the environment.
 */
module Query {

  /** A row: the text of each named column. */
  type Row = map<string, string>

  /** What the environment does with a step: let it go on, or stop it with a code. */
  datatype Answer = Go | Busy | Protocol | Blocked | Locked | Fail(code: int)

  /** What sqlite3_step returns. */
  datatype Code =
    | RowCode | DoneCode | BusyCode | ProtocolCode | BlockedCode | LockedCode | AbortCode
    | ErrorCode(code: int)

  predicate Refused(c: Code) { c.BusyCode? || c.ProtocolCode? || c.BlockedCode? }
  predicate ResultOkay(c: Code) { Refused(c) || c.RowCode? }

  /** Without further answers every step goes on. */
  function First(answers: seq<Answer>): Answer { if answers == [] then Go else answers[0] }

  function CodeOf(a: Answer, more: bool): Code {
    match a
    case Go => if more then RowCode else DoneCode
    case Busy => BusyCode
    case Protocol => ProtocolCode
    case Blocked => BlockedCode
    case Locked => LockedCode
    case Fail(code) => ErrorCode(code)
  }

  class Statement {
    const table: seq<Row>
    var next: nat
    var answers: seq<Answer>

    ghost predicate Valid()
      reads this
    {
      next <= |table|
    }

    constructor (table: seq<Row>, answers: seq<Answer>)
      ensures Valid() && this.table == table && next == 0 && this.answers == answers
    {
      this.table, next, this.answers := table, 0, answers;
    }

    method Step() returns (c: Code, row: Row)
      requires Valid()
      modifies this
      ensures Valid()
      ensures answers == if old(answers) == [] then [] else old(answers)[1..]
      ensures c == CodeOf(First(old(answers)), old(next) < |table|)
      ensures c.RowCode? ==> old(next) < |table| && row == table[old(next)]
      ensures next == if c.RowCode? then old(next) + 1 else old(next)
    {
      var a := Go;
      if answers != [] { a, answers := answers[0], answers[1..]; }
      row := map[];
      match a {
        case Go =>
          if next < |table| { c, row, next := RowCode, table[next], next + 1; } else { c := DoneCode; }
        case Busy => c := BusyCode;
        case Protocol => c := ProtocolCode;
        case Blocked => c := BlockedCode;
        case Locked => c := LockedCode;
        case Fail(code) => c := ErrorCode(code);
      }
    }

    method Reset()
      modifies this
      ensures Valid() && next == 0 && answers == old(answers)
    {
      next := 0;
    }
  }

  /** The transaction lock of the database; grants says which requests for it are granted. */
  class Database {
    const inTransaction: bool
    var grants: seq<bool>
    var held: bool
    ghost var acquired: nat
    ghost var released: nat

    ghost predicate Balanced()
      reads this
    {
      acquired == released + if held then 1 else 0
    }

    constructor (inTransaction: bool, grants: seq<bool>)
      ensures this.inTransaction == inTransaction && this.grants == grants && Balanced() && !held && acquired == 0
    {
      this.inTransaction, this.grants, held, acquired, released := inTransaction, grants, false, 0, 0;
    }

    /** It is asked for only when it is not held. */
    method LockForTransaction() returns (ok: bool)
      requires Balanced() && !held
      modifies this
      ensures Balanced() && held == ok && released == old(released)
    {
      ok := grants == [] || grants[0];
      if grants != [] { grants := grants[1..]; }
      if ok { held, acquired := true, acquired + 1; }
    }

    method UnlockForTransaction()
      requires Balanced() && held
      modifies this
      ensures Balanced() && !held && acquired == old(acquired)
    {
      held, released := false, released + 1;
    }
  }

  predicate NeverFails(answers: seq<Answer>) {
    forall i | 0 <= i < |answers| :: !answers[i].Fail? && !answers[i].Locked?
  }

  /** The first n steps go on. */
  predicate GoesThrough(answers: seq<Answer>, n: nat) {
    forall i | 0 <= i < n && i < |answers| :: answers[i].Go?
  }

  predicate NeverLocked(answers: seq<Answer>) { forall i | 0 <= i < |answers| :: !answers[i].Locked? }

  /** The answers after k steps. */
  function Left(answers: seq<Answer>, k: nat): seq<Answer> { if k <= |answers| then answers[k..] else [] }

  /** CQuery::step: after a refused step the statement is reset, or the read gives up when it has a time limit. */
  method Step(st: Statement, db: Database, limited: bool, tries: int, transactionLock: bool)
    returns (c: Code, row: Row, triesLeft: int, locked: bool, reset: bool)
    requires st.Valid() && db.Balanced() && transactionLock == db.held
    modifies st, db
    ensures st.Valid() && db.Balanced() && locked == db.held
    ensures reset ==> st.next == 0 && !limited
    ensures !reset ==> st.next == if c.RowCode? then old(st.next) + 1 else old(st.next)
    ensures c.RowCode? ==> old(st.next) < |st.table| && row == st.table[old(st.next)] && !reset
    ensures c.DoneCode? ==> old(st.next) == |st.table| && !reset
    ensures Refused(c) ==> reset && old(st.answers) != []
    ensures st.answers == if old(st.answers) == [] then [] else old(st.answers)[1..]
    ensures NeverFails(old(st.answers)) && !limited ==> c.DoneCode? || ResultOkay(c)
    ensures limited ==> !Refused(c)
    ensures limited ==> (c.RowCode? || c.DoneCode? <==> GoesThrough(old(st.answers), 1))
    ensures GoesThrough(old(st.answers), 1) ==> c == if old(st.next) < |st.table| then RowCode else DoneCode
    ensures transactionLock ==> locked
  {
    triesLeft, locked, reset := tries, transactionLock, false;
    c, row := st.Step();
    if Refused(c) {
      if limited {
        c := AbortCode;
      } else if !db.inTransaction && !locked {
        st.Reset();
        reset := true;
        locked := db.LockForTransaction();
      } else {
        st.Reset();
        reset := true;
        triesLeft := triesLeft - 1;
      }
    }
  }

  /** After k steps that went on. */
  predicate Passed(c: Code, next: int, k: nat) {
    (c.RowCode? && next == k) || (c.DoneCode? && next + 1 == k)
  }

  /** What the first k of n answers say about the code; strict means that nothing was tried again. */
  predicate Followed(answers: seq<Answer>, k: nat, n: nat, c: Code, next: int, strict: bool) {
    && (GoesThrough(answers, k) ==> k <= n && Passed(c, next, k))
    && (GoesThrough(answers, n) ==> GoesThrough(answers, k))
    && (strict && !GoesThrough(answers, k) ==> k <= n && !c.RowCode? && !c.DoneCode?)
  }

  lemma OneMore(answers: seq<Answer>, k: nat)
    ensures GoesThrough(answers, k + 1) <==> GoesThrough(answers, k) && GoesThrough(Left(answers, k), 1)
    ensures Left(answers, k + 1) == if Left(answers, k) == [] then [] else Left(answers, k)[1..]
    ensures GoesThrough(answers, 0) && Left(answers, 0) == answers
  {
  }

  lemma NotBeyond(answers: seq<Answer>, k: nat, n: nat)
    ensures k <= n && GoesThrough(answers, n) ==> GoesThrough(answers, k)
  {
  }

  /**
   * A read that ends with SQLITE_DONE returns exactly one full pass of the result set, however often it was
   * refused; any other end leaves a prefix of one pass. With a time limit it ends so exactly when no step of the pass
   * was stopped. The lock is back where it was.
   */
  method Read(st: Statement, db: Database, limited: bool) returns (rows: seq<Row>, c: Code)
    requires st.Valid() && st.next == 0 && db.Balanced() && !db.held
    modifies st, db
    ensures rows <= st.table
    ensures c.DoneCode? ==> rows == st.table
    ensures !ResultOkay(c)
    ensures NeverFails(old(st.answers)) && !limited ==> c.DoneCode?
    ensures GoesThrough(old(st.answers), |st.table| + 1) ==> c.DoneCode?
    ensures limited ==> (c.DoneCode? <==> GoesThrough(old(st.answers), |st.table| + 1))
    ensures db.Balanced() && !db.held && db.acquired - old(db.acquired) == db.released - old(db.released)
  {
    hide GoesThrough, Left;
    OneMore(st.answers, 0);
    rows := [];
    c := BusyCode;
    var transactionLock, tries := false, 60;
    ghost var was, k: nat, n := st.answers, 0, |st.table| + 1;
    while ResultOkay(c)
      invariant st.Valid() && db.Balanced() && transactionLock == db.held
      invariant rows == st.table[..st.next]
      invariant c.DoneCode? ==> st.next == |st.table|
      invariant NeverFails(old(st.answers)) ==> NeverFails(st.answers)
      invariant NeverFails(old(st.answers)) && !limited ==> c.DoneCode? || ResultOkay(c)
      invariant st.answers == Left(was, k)
      invariant k == 0 ==> st.next == 0 && Refused(c)
      invariant k > 0 && limited ==> !Refused(c)
      invariant k > 0 ==> Followed(was, k, n, c, st.next, limited)
      decreases ResultOkay(c), |st.answers|, |st.table| - st.next
    {
      var row, reset;
      c, row, tries, transactionLock, reset := Step(st, db, limited, tries, transactionLock);
      OneMore(was, k);
      k := k + 1;
      NotBeyond(was, k, n);
      if reset { rows := []; }
      if c.RowCode? { rows := rows + [row]; }
    }
    if transactionLock { db.UnlockForTransaction(); }
  }

  predicate NoFailure(answers: seq<Answer>) { forall i | 0 <= i < |answers| :: !answers[i].Fail? }

  /** What Execute does before it steps again: with a time limit a refusal ends it, and so does a long wait. */
  method Again(st: Statement, db: Database, c: Code, transactionLock: bool, tries: int, unlocks: seq<bool>, left: int)
    returns (go: bool, locked: bool, tries': int, unlocks': seq<bool>, left': int)
    requires st.Valid() && db.Balanced() && transactionLock == db.held
    modifies st, db
    ensures st.Valid() && db.Balanced() && locked == db.held && st.answers == old(st.answers)
    ensures Refused(c) ==> go == (left < 0) && (go ==> st.next == 0)
    ensures !Refused(c) || !go ==> st.next == old(st.next)
    ensures !Refused(c) && !c.LockedCode? ==> go
    ensures !c.LockedCode? ==> left' == left
    ensures left < 0 ==> go && left' < 0
  {
    go, locked, tries', unlocks', left' := true, transactionLock, tries, unlocks, left;
    if Refused(c) {
      if left >= 0 {
        go := false;
      } else if !db.inTransaction && !transactionLock {
        st.Reset();
        locked := db.LockForTransaction();
      } else {
        st.Reset();
        tries' := tries - 1;
      }
    } else if c.LockedCode? {
      if transactionLock {
        db.UnlockForTransaction();
        locked := false;
      }
      var freed := unlocks == [] || unlocks[0];
      if unlocks != [] { unlocks' := unlocks[1..]; }
      if !freed && left >= 0 {
        left' := left - 1000;
        if left' <= 0 { go := false; }
      }
    }
  }

  /** Execute: rows are skipped, the lock is given back before waiting for a locked table. */
  method Execute(st: Statement, db: Database, timeoutMs: int, unlocks: seq<bool>) returns (ok: bool)
    requires st.Valid() && db.Balanced() && !db.held
    modifies st, db
    ensures st.Valid() && db.Balanced() && !db.held && db.acquired - old(db.acquired) == db.released - old(db.released)
    ensures ok ==> st.next == |st.table|
    ensures NoFailure(old(st.answers)) && timeoutMs < 0 ==> ok
    ensures GoesThrough(old(st.answers), |st.table| - old(st.next) + 1) ==> ok
    ensures timeoutMs >= 0 && NeverLocked(old(st.answers)) ==>
              (ok <==> GoesThrough(old(st.answers), |st.table| - old(st.next) + 1))
  {
    ghost var was, at := st.answers, st.next;
    ghost var strict := timeoutMs >= 0 && NeverLocked(was);
    hide GoesThrough, Left, Stepped, NoFailure, NeverLocked, Followed;
    OneMore(was, 0);
    var c, row := StepOn(st, was, 0, at, RowCode, at, strict);
    var transactionLock;
    transactionLock, c := Rounds(st, db, c, unlocks, timeoutMs, was, at, strict);
    if transactionLock { db.UnlockForTransaction(); }
    ok := c.DoneCode?;
  }

  /** Execute's loop. */
  method Rounds(st: Statement, db: Database, first: Code, unlocks: seq<bool>, timeoutMs: int,
      ghost was: seq<Answer>, ghost at: nat, ghost strict: bool) returns (transactionLock: bool, c: Code)
    requires db.Balanced() && !db.held && st.Valid() && strict == (timeoutMs >= 0 && NeverLocked(was))
    requires Underway(st, was, 1, at, first, timeoutMs, timeoutMs, true, strict)
    modifies st, db
    ensures db.Balanced() && transactionLock == db.held && st.Valid() && at <= |st.table|
    ensures Ended(st, was, at, c, timeoutMs, strict)
  {
    hide GoesThrough, Left, Stepped, NoFailure, NeverLocked, Followed, Underway, Ended;
    ghost var k: nat := 0;
    var go, tries, waits, left := true, 60, unlocks, timeoutMs;
    transactionLock, c := false, first;
    while go && (ResultOkay(c) || c.LockedCode?)
      invariant db.Balanced() && transactionLock == db.held && st.Valid()
      invariant Underway(st, was, k + 1, at, c, timeoutMs, left, go, strict)
      decreases go && (ResultOkay(c) || c.LockedCode?), |st.answers|, if Refused(c) then 1 else 0, |st.table| - st.next
    {
      go, transactionLock, tries, waits, left, c :=
        Round(st, db, c, transactionLock, tries, waits, left, was, k + 1, at, timeoutMs, strict);
      k := if go then k + 1 else k;
    }
    Ending(st, was, k + 1, at, c, timeoutMs, left, go, strict);
  }

  /** What the answers say about the code at the end. */
  ghost predicate Ended(st: Statement, was: seq<Answer>, at: nat, c: Code, timeoutMs: int, strict: bool)
    requires at <= |st.table|
    reads st
  {
    && (c.DoneCode? ==> st.next == |st.table|) && (NoFailure(was) && timeoutMs < 0 ==> c.DoneCode?)
    && (GoesThrough(was, |st.table| - at + 1) ==> c.DoneCode?)
    && (strict && c.DoneCode? ==> GoesThrough(was, |st.table| - at + 1))
  }

  ghost predicate Underway(st: Statement, was: seq<Answer>, k: nat, at: nat, c: Code, timeoutMs: int, left: int,
      go: bool, strict: bool)
    reads st
  {
    && Stepped(st, was, k, at, c, strict) && st.answers == Left(was, k)
    && (timeoutMs < 0 ==> left < 0 && go) && (strict ==> left >= 0 && NeverLocked(was)) && (c.DoneCode? ==> go)
    && at <= |st.table| && (GoesThrough(was, |st.table| - at + 1) ==> go)
  }

  lemma Ending(st: Statement, was: seq<Answer>, k: nat, at: nat, c: Code, timeoutMs: int, left: int, go: bool,
      strict: bool)
    requires Underway(st, was, k, at, c, timeoutMs, left, go, strict) && !(go && (ResultOkay(c) || c.LockedCode?))
    requires strict == (timeoutMs >= 0 && NeverLocked(was)) && st.Valid()
    ensures at <= |st.table| && Ended(st, was, at, c, timeoutMs, strict)
  {
    GoingOn(st, was, k, at, c, strict);
    hide Stepped, GoesThrough, Left, NoFailure, NeverLocked, Followed;
  }

  /** One round of Execute's loop. */
  method Round(st: Statement, db: Database, c: Code, transactionLock: bool, tries: int, unlocks: seq<bool>, left: int,
      ghost was: seq<Answer>, ghost k: nat, ghost at: nat, ghost timeoutMs: int, ghost strict: bool)
    returns (go: bool, locked: bool, tries': int, unlocks': seq<bool>, left': int, c': Code)
    requires db.Balanced() && transactionLock == db.held && st.Valid() && k > 0
    requires Underway(st, was, k, at, c, timeoutMs, left, true, strict) && (ResultOkay(c) || c.LockedCode?)
    modifies st, db
    ensures db.Balanced() && locked == db.held && st.Valid()
    ensures Underway(st, was, if go then k + 1 else k, at, c', timeoutMs, left', go, strict)
    ensures go ==>
              || |st.answers| < |old(st.answers)|
              || (st.answers == old(st.answers) == [] && !Refused(c') &&
                  (Refused(c) || c'.DoneCode? || st.next == old(st.next) + 1))
  {
    hide GoesThrough, Left, NoFailure, NeverLocked, Followed;
    ghost var next := st.next;
    GoingOn(st, was, k, at, c, strict);
    c' := c;
    go, locked, tries', unlocks', left' := Again(st, db, c, transactionLock, tries, unlocks, left);
    if go {
      var row;
      c', row := StepOn(st, was, k, at, c, next, strict);
    }
  }

  /** The state after k steps of Execute that began at row `at`. */
  ghost predicate Stepped(st: Statement, answers: seq<Answer>, k: nat, at: nat, c: Code, strict: bool)
    reads st
  {
    && at <= |st.table| && !c.AbortCode? && (c.DoneCode? ==> st.next == |st.table|)
    && (NoFailure(answers) ==> !c.ErrorCode?) && (NeverLocked(answers) ==> !c.LockedCode?)
    && Followed(answers, k, |st.table| - at + 1, c, st.next - at, strict)
  }

  method StepOn(st: Statement, ghost was: seq<Answer>, ghost k: nat, ghost at: nat, ghost before: Code,
      ghost next: nat, ghost strict: bool) returns (c: Code, row: Row)
    requires st.Valid() && at <= |st.table| && st.answers == Left(was, k)
    requires !before.DoneCode? && (strict ==> before.RowCode?) && (before.RowCode? ==> st.next == next)
    requires if k == 0 then st.next == next == at else Followed(was, k, |st.table| - at + 1, before, next - at, strict)
    modifies st
    ensures st.Valid() && Stepped(st, was, k + 1, at, c, strict)
    ensures st.answers == Left(was, k + 1)
    ensures |st.answers| < |old(st.answers)| || (st.answers == [] && (c.RowCode? || c.DoneCode?))
    ensures st.next == if c.RowCode? then old(st.next) + 1 else old(st.next)
  {
    hide Left, Followed, NoFailure, NeverLocked, GoesThrough;
    var n, m := |st.table| - at + 1, |st.table| - at;
    OneMore(was, k);
    CodeFits(was, k, st.next < |st.table|);
    if k == 0 {
      FirstFollowed(was, n, m, strict);
    } else {
      FollowedNext(was, k, n, before, next - at, st.next - at, m, strict);
    }
    c, row := st.Step();
  }

  lemma FirstFollowed(answers: seq<Answer>, n: nat, m: nat, strict: bool)
    requires n == m + 1
    ensures var c := CodeOf(First(answers), m > 0);
            Followed(answers, 1, n, c, if c.RowCode? then 1 else 0, strict)
  {
  }

  /** A step from a row, or from a state in which something was stopped before. */
  lemma FollowedNext(answers: seq<Answer>, k: nat, n: nat, c: Code, was: int, next: int, m: int,
      strict: bool)
    requires Followed(answers, k, n, c, was, strict) && n == m + 1 && !c.DoneCode? && next <= m
    requires (strict ==> c.RowCode?) && (c.RowCode? ==> next == was)
    ensures var d := CodeOf(First(Left(answers, k)), next < m);
            Followed(answers, k + 1, n, d, if d.RowCode? then next + 1 else next, strict)
  {
    OneMore(answers, k);
    FirstAnswer(answers, k);
    hide Left;
    NotBeyond(answers, k + 1, n);
    hide GoesThrough;
  }

  lemma GoingOn(st: Statement, answers: seq<Answer>, k: nat, at: nat, c: Code, strict: bool)
    requires Stepped(st, answers, k, at, c, strict)
    ensures at <= |st.table| && Followed(answers, k, |st.table| - at + 1, c, st.next - at, strict)
    ensures !c.AbortCode? && (c.DoneCode? ==> st.next == |st.table|) && (NoFailure(answers) ==> !c.ErrorCode?)
    ensures NeverLocked(answers) ==> !c.LockedCode?
    ensures GoesThrough(answers, |st.table| - at + 1) ==> c.RowCode? || c.DoneCode?
    ensures c.DoneCode? && strict ==> GoesThrough(answers, |st.table| - at + 1)
  {
  }

  lemma CodeFits(answers: seq<Answer>, k: nat, more: bool)
    ensures var c := CodeOf(First(Left(answers, k)), more);
            && (Left(answers, k) == [] ==> c.RowCode? || c.DoneCode?)
            && (c.RowCode? ==> more) && (c.DoneCode? ==> !more) && !c.AbortCode?
            && (NoFailure(answers) ==> !c.ErrorCode?) && (NeverLocked(answers) ==> !c.LockedCode?)
  {
    FirstAnswer(answers, k);
    hide Left, NoFailure, NeverLocked;
  }

  lemma FirstAnswer(answers: seq<Answer>, k: nat)
    ensures var a := Left(answers, k);
            && (GoesThrough(a, 1) <==> a == [] || a[0].Go?)
            && (NoFailure(answers) && a != [] ==> !a[0].Fail?)
            && (NeverLocked(answers) && a != [] ==> !a[0].Locked?)
  {
  }
}
