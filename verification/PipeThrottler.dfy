/**
 * PipeThrottler with a fixed limit: percent_max is false and there is no updater, so throttle_state stays at
 * probing.
 */
module Throttling {

  const UINT_RANGE: int := 0x1_0000_0000

  /** A window that was closed: how long it lasted, and the bytes counted in it. */
  datatype Window = Window(length: nat, bytes: nat)

  /**
   * curr and last are curr_bytes and lastresettime. The rest is a record of the past: the time, when the
   * record began, and the windows closed since.
   */
  datatype Throttle = Throttle(curr: nat, last: int, now: int, start: int, closed: seq<Window>)

  /**
   * A call of addBytes at a time; when it sleeps, it wakes up late by some time, and the second reading of
   * the clock after the sleep is later again.
   */
  datatype Call = Call(bytes: nat, wait: bool, at: int, late: nat, later: nat)

  /** A new throttler that is first called at or after a time. */
  function Fresh(now: int): Throttle { Throttle(0, 0, now, if now > 1000 then now else 0, []) }

  /**
   * lastresettime moves to a time and a window ends there or before; the window before the first call is not
   * counted.
   */
  function Close(t: Throttle, end: int, reset: int): Throttle
    requires t.last <= end
  {
    var closed := if t.last < t.start then t.closed else t.closed + [Window(end - t.last, t.curr)];
    t.(curr := 0, last := reset, closed := closed)
  }

  /** The reset at the beginning of addBytes, and the new bytes. */
  function Begin(t: Throttle, c: Call): Throttle
    requires t.last <= c.at
  {
    var u := if c.at - t.last > 1000 then Close(t, c.at, c.at) else t;
    u.(curr := u.curr + c.bytes, now := c.at)
  }

  /** A thousand times the bytes, divided: bytes a second, or milliseconds at a rate. */
  function PerThousand(bytes: nat, d: nat): nat
    requires d > 0
  {
    bytes * 1000 / d
  }

  /** The time that addBytes would like to sleep, before it is cut down to 32 bits. */
  function Wanted(bps: nat, u: Throttle): (w: int)
    requires bps > 0 && u.last <= u.now
  {
    var passed := u.now - u.last;
    if passed > 0 then (if PerThousand(u.curr, passed) > bps then PerThousand(u.curr, bps) - passed else 0)
    else if u.curr >= bps then PerThousand(u.curr, bps)
    else 0
  }

  /** addBytes after the bytes were counted; the result is whether the caller may go on at once. */
  function Limit(bps: nat, u: Throttle, c: Call): (Throttle, bool)
    requires bps > 0 && u.last <= u.now == c.at
  {
    Pause(bps, u, c, Wanted(bps, u) % UINT_RANGE)
  }

  /** The sleep, and the end of the window if it has become a second old. */
  function Pause(bps: nat, u: Throttle, c: Call, sleep: nat): (Throttle, bool)
    requires u.last <= u.now == c.at
  {
    if u.now > u.last then
      if sleep > 0 then
        if !c.wait then (u, false)
        else
          var woken := c.at + sleep + c.late;
          if woken - u.last > 1000 then (Close(u, woken, woken + c.later).(now := woken + c.later), false)
          else (u.(now := woken), false)
      else (u, true)
    else if u.curr >= bps then
      var woken := if c.wait then c.at + sleep + c.late else c.at + c.late;
      (Close(u, woken, woken).(now := woken), false)
    else (u, true)
  }

  function AddBytes(bps: nat, t: Throttle, c: Call): (Throttle, bool)
    requires t.last <= c.at
  {
    if bps == 0 then (t.(now := c.at), true) else Limit(bps, Begin(t, c), c)
  }

  // ---------------------------------------------------------------------------------------
  // The answer

  /** The bytes of the window and its age when the call has been counted. */
  function WindowBytes(t: Throttle, c: Call): nat { (if c.at - t.last > 1000 then 0 else t.curr) + c.bytes }

  function WindowAge(t: Throttle, c: Call): int { if c.at - t.last > 1000 then 0 else c.at - t.last }

  /** The rate is within the limit, or nothing is left of the time to sleep once it is cut down to 32 bits. */
  predicate MayGo(bps: nat, bytes: nat, age: nat) {
    || bps == 0
    || (age == 0 && bytes < bps)
    || (age > 0 && (bytes * 1000 / age <= bps || (bytes * 1000 / bps - age) % 0x1_0000_0000 == 0))
  }

  /** The caller may go on exactly when bytes and age of the window allow it, whether it waits or not. */
  lemma AnswerExactly(bps: nat, t: Throttle, c: Call)
    requires t.last <= c.at
    ensures AddBytes(bps, t, c).1 <==> MayGo(bps, WindowBytes(t, c), WindowAge(t, c))
  {
    if bps > 0 {
      var u := Begin(t, c);
      assert u.curr == WindowBytes(t, c) && u.now - u.last == WindowAge(t, c);
      hide Begin, Close;
      var age := u.now - u.last;
      if age > 0 && PerThousand(u.curr, age) <= bps {
        assert Wanted(bps, u) == 0;
      }
    }
  }

  lemma AnswerIgnoresWait(bps: nat, t: Throttle, c: Call, other: Call)
    requires t.last <= c.at && other.at == c.at && other.bytes == c.bytes
    ensures AddBytes(bps, t, other).1 == AddBytes(bps, t, c).1
  {
    hide AddBytes;
    AnswerExactly(bps, t, c);
    AnswerExactly(bps, t, other);
  }

  /** Without divisions: the caller has to stop when the bytes are worth more than the age of the window. */
  lemma AnswerInBytes(bps: nat, t: Throttle, c: Call)
    requires t.last <= c.at && bps > 0
    requires WindowBytes(t, c) * 1000 < bps * 0x1_0000_0000
    ensures AddBytes(bps, t, c).1 <==>
            (if WindowAge(t, c) == 0 then WindowBytes(t, c) < bps
             else WindowBytes(t, c) * 1000 < (bps + 1) * WindowAge(t, c) ||
                  WindowBytes(t, c) * 1000 < bps * (WindowAge(t, c) + 1))
  {
    AnswerExactly(bps, t, c);
    hide AddBytes, WindowBytes, WindowAge;
    var bytes, age := WindowBytes(t, c), WindowAge(t, c);
    if age != 0 {
      AgeWithin(t, c);
      StopsExactly(bps, bytes, age);
    }
  }

  lemma AgeWithin(t: Throttle, c: Call)
    requires t.last <= c.at
    ensures 0 <= WindowAge(t, c) <= 1000
  {
  }

  lemma StopsExactly(bps: nat, bytes: nat, age: nat)
    requires bps > 0 && 0 < age <= 1000 && bytes * 1000 < bps * 0x1_0000_0000
    ensures MayGo(bps, bytes, age) <==> bytes * 1000 < (bps + 1) * age || bytes * 1000 < bps * (age + 1)
  {
    QuotientBounds(bytes * 1000, age, bps);
    QuotientBounds(bytes * 1000, bps, age);
    QuotientBounds(bytes * 1000, bps, 0xffff_ffff);
  }

  // ---------------------------------------------------------------------------------------

  /** A thousand times the bytes that some milliseconds pay for. */
  function Pay(bps: nat, ms: int): int { (bps + 1) * ms }

  lemma PayGrows(bps: nat, a: int, b: int)
    requires a <= b
    ensures Pay(bps, a) <= Pay(bps, b)
  {
  }

  lemma PayAdds(bps: nat, a: int, b: int)
    ensures Pay(bps, a) + Pay(bps, b) == Pay(bps, a + b)
  {
  }

  /** The open window's bytes are paid for by its age, or are less than one second's worth. */
  predicate Open(bps: nat, t: Throttle) {
    t.curr * 1000 <= Pay(bps, t.now - t.last + 1) || t.curr < bps
  }

  /** A closed window lasted a second or more, and its length pays for its bytes. */
  predicate Paid(bps: nat, w: Window) {
    w.length >= 1000 && w.bytes * 1000 <= Pay(bps, w.length + 1)
  }

  function Duration(closed: seq<Window>): nat {
    if closed == [] then 0 else Duration(closed[..|closed| - 1]) + closed[|closed| - 1].length
  }

  function Bytes(closed: seq<Window>): nat {
    if closed == [] then 0 else Bytes(closed[..|closed| - 1]) + closed[|closed| - 1].bytes
  }

  predicate AllPaid(bps: nat, closed: seq<Window>) { forall i | 0 <= i < |closed| :: Paid(bps, closed[i]) }

  /** The clock, and the closed windows lying apart behind lastresettime. */
  predicate Timed(t: Throttle) {
    && t.start <= t.now && t.last <= t.now
    && (t.last < t.start ==> t.curr == 0 && t.closed == [] && t.now - t.last > 1000)
    && (t.last >= t.start ==> Duration(t.closed) <= t.last - t.start)
  }

  predicate Valid(bps: nat, t: Throttle) { Open(bps, t) && AllPaid(bps, t.closed) && Timed(t) }

  /** Every byte that was counted. */
  function Counted(t: Throttle): nat { Bytes(t.closed) + t.curr }

  /** Calls wait, or only ask; and no call would have to sleep for 2^32 milliseconds or more. */
  predicate Proper(bps: nat, t: Throttle, c: Call) {
    && t.now <= c.at && t.last <= c.at && (c.wait || c.bytes == 0)
    && (bps > 0 ==> Wanted(bps, Begin(t, c)) < UINT_RANGE)
  }

  lemma FreshValid(bps: nat, now: int)
    requires now >= 0
    ensures Valid(bps, Fresh(now))
  {
  }

  // ---------------------------------------------------------------------------------------

  lemma QuotientBounds(x: nat, m: nat, q: nat)
    requires m > 0
    ensures x / m >= q <==> x >= q * m
    ensures x / m <= q <==> x < (q + 1) * m
  {
    var d := x / m;
    var r := x % m;
    assert x == m * d + r && 0 <= r < m;
    QuotientCompare(x, m, q, d, r);
  }

  lemma QuotientCompare(x: nat, m: nat, q: nat, d: nat, r: nat)
    requires x == m * d + r && r < m
    ensures d >= q <==> x >= q * m
    ensures d <= q <==> x < (q + 1) * m
  {
    if d >= q { assert m * d >= m * q; } else { assert m * (d + 1) <= m * q; }
    if d <= q { assert m * d <= m * q; } else { assert m * (q + 1) <= m * d; }
  }

  /** The subtraction maxRateTime - passed_time never goes below zero. */
  lemma WantedNonNegative(bps: nat, u: Throttle)
    requires bps > 0 && u.last <= u.now
    ensures Wanted(bps, u) >= 0
  {
    var passed := u.now - u.last;
    if passed > 0 && u.curr * 1000 / passed > bps {
      QuotientBounds(u.curr * 1000, passed, bps + 1);
      QuotientBounds(u.curr * 1000, bps, passed);
      assert (bps + 1) * passed == passed * bps + passed;
    }
  }

  /** Once the wanted time has passed, the window's age pays for its bytes. */
  lemma WantedPays(bps: nat, u: Throttle, age: nat)
    requires bps > 0 && u.last <= u.now && age >= u.now - u.last + Wanted(bps, u)
    ensures u.curr * 1000 <= Pay(bps, age + 1) || (u.curr < bps && u.now == u.last)
  {
    var passed := u.now - u.last;
    WantedNonNegative(bps, u);
    if passed > 0 && u.curr * 1000 / passed <= bps {
      QuotientBounds(u.curr * 1000, passed, bps);
      assert Pay(bps, passed) == (bps + 1) * passed;
      PayGrows(bps, passed, age + 1);
    } else if passed > 0 || u.curr >= bps {
      QuotientBounds(u.curr * 1000, bps, age);
      assert (age + 1) * bps <= Pay(bps, age + 1);
    }
  }

  lemma {:induction false} ClosedPay(bps: nat, closed: seq<Window>)
    requires AllPaid(bps, closed)
    ensures Bytes(closed) * 1000 <= Pay(bps, Duration(closed) + |closed|) && |closed| * 1000 <= Duration(closed)
  {
    if closed == [] {
      assert Pay(bps, 0) == 0;
    } else {
      hide Pay;
      var n := |closed| - 1;
      ClosedPay(bps, closed[..n]);
      assert Paid(bps, closed[n]);
      PayAdds(bps, Duration(closed[..n]) + n, closed[n].length + 1);
      assert Duration(closed) + |closed| == (Duration(closed[..n]) + n) + (closed[n].length + 1);
    }
  }

  lemma CloseTimed(t: Throttle, end: int, reset: int)
    requires Timed(t) && t.now <= end <= reset
    ensures var r := Close(t, end, reset).(now := reset);
            Timed(r) && r.last >= r.start && Counted(r) == Counted(t) && r.start == t.start
  {
    var w := Window(end - t.last, t.curr);
    assert (t.closed + [w])[..|t.closed|] == t.closed;
  }

  /** A window that is closed behind the first call is paid for, or the account is broken for good. */
  lemma CloseExactly(bps: nat, t: Throttle, end: int, reset: int)
    requires bps > 0 && Timed(t) && AllPaid(bps, t.closed) && t.last >= t.start && t.now <= end <= reset
    ensures Valid(bps, Close(t, end, reset).(now := reset)) <==> Paid(bps, Window(end - t.last, t.curr))
  {
    CloseTimed(t, end, reset);
    OneMorePaid(bps, t.closed, Window(end - t.last, t.curr));
    PayGrows(bps, 0, 1);
    assert Pay(bps, 0) == 0;
    hide Timed, AllPaid, Paid, Pay;
  }

  lemma OneMorePaid(bps: nat, closed: seq<Window>, w: Window)
    requires AllPaid(bps, closed)
    ensures AllPaid(bps, closed + [w]) <==> Paid(bps, w)
  {
    hide Paid;
    var all := closed + [w];
    assert all[|closed|] == w;
    forall i | 0 <= i < |closed| ensures Paid(bps, all[i]) { assert all[i] == closed[i]; }
  }

  /** Once an open window is a second old, its bytes are paid for. */
  lemma OldIsPaid(bps: nat, t: Throttle, end: int)
    requires Open(bps, t) && t.last <= t.now <= end && end - t.last >= 1000
    ensures Paid(bps, Window(end - t.last, t.curr))
  {
    assert Pay(bps, 1000) == 1000 * bps + 1000;
    hide Pay;
    PayGrows(bps, 1000, end - t.last + 1);
    PayGrows(bps, t.now - t.last + 1, end - t.last + 1);
  }

  /** What the window holds after the reset at the beginning of a call. */
  lemma BeginBounds(bps: nat, t: Throttle, c: Call)
    requires bps > 0 && Valid(bps, t) && t.now <= c.at
    ensures var u := Begin(t, c);
            && Timed(u) && AllPaid(bps, u.closed) && u.last >= u.start && u.now == c.at && u.now - u.last <= 1000
            && (c.bytes == 0 ==> Open(bps, u))
            && (u.curr - c.bytes) * 1000 <= 1001 * bps + 1001
            && Counted(u) == Counted(t) + c.bytes
            && u.start == t.start
  {
    assert Pay(bps, 1001) == 1001 * bps + 1001;
    hide Pay, Duration, Bytes;
    if c.at - t.last > 1000 {
      var s := t.(now := c.at);
      CloseTimed(s, c.at, c.at);
      if t.last >= t.start {
        OldIsPaid(bps, t, c.at);
        CloseExactly(bps, s, c.at, c.at);
      }
    } else {
      PayGrows(bps, t.now - t.last + 1, c.at - t.last + 1);
      PayGrows(bps, c.at - t.last + 1, 1001);
    }
  }

  /** No call that brings at most what the limit allows in 4 million seconds would have to sleep that long. */
  lemma ModestCallFits(bps: nat, t: Throttle, c: Call)
    requires bps > 0 && Valid(bps, t) && t.now <= c.at && c.bytes <= 4_000_000 * bps
    ensures Wanted(bps, Begin(t, c)) < UINT_RANGE
  {
    BeginBounds(bps, t, c);
    QuotientBounds(Begin(t, c).curr * 1000, bps, 4_000_003_000);
  }

  /** A second's worth of bytes at once makes the caller wait for a second; a paid window never holds that. */
  lemma BurstWants(bps: nat, u: Throttle)
    requires bps > 0 && u.now == u.last && u.curr >= bps
    ensures Wanted(bps, u) >= 1000 && !Open(bps, u)
  {
    QuotientBounds(u.curr * 1000, bps, 1000);
    assert Pay(bps, 1) == bps + 1;
  }

  /** What a sleep makes of the account: the window that it closes, or the one that stays open, must be paid for. */
  lemma PauseExactly(bps: nat, u: Throttle, c: Call, sleep: nat)
    requires bps > 0 && Timed(u) && AllPaid(bps, u.closed) && u.last >= u.start && u.now == c.at
    ensures var r := Pause(bps, u, c, sleep).0;
            Timed(r) && Counted(r) == Counted(u) && r.start == u.start && r.now >= c.at
    ensures var age := u.now - u.last + (if c.wait then sleep + c.late else c.late);
            Valid(bps, Pause(bps, u, c, sleep).0) <==>
            if u.now == u.last && u.curr >= bps then Paid(bps, Window(age, u.curr))
            else if u.now == u.last || sleep == 0 || !c.wait then Open(bps, u)
            else if age > 1000 then Paid(bps, Window(age, u.curr))
            else Open(bps, u.(now := u.last + age))
  {
    hide Duration, Bytes, Pay;
    var end := c.at + (if c.wait then sleep + c.late else c.late);
    if u.now == u.last && u.curr >= bps {
      CloseTimed(u, end, end);
      CloseExactly(bps, u, end, end);
    } else if u.now > u.last && sleep > 0 && c.wait && end - u.last > 1000 {
      CloseTimed(u, end, end + c.later);
      CloseExactly(bps, u, end, end + c.later);
    }
  }

  lemma LimitPauses(bps: nat, u: Throttle, c: Call)
    requires bps > 0 && u.last <= u.now == c.at && Wanted(bps, u) >= 0
    ensures Limit(bps, u, c) == Pause(bps, u, c, Wanted(bps, u) % UINT_RANGE)
    ensures Wanted(bps, u) < UINT_RANGE ==> Wanted(bps, u) % UINT_RANGE == Wanted(bps, u)
  {
    hide Wanted, Pause;
  }

  /** After the wanted sleep, or a longer one, the window is paid for. */
  lemma LimitKeeps(bps: nat, u: Throttle, c: Call)
    requires bps > 0 && Timed(u) && AllPaid(bps, u.closed) && u.last >= u.start && u.now == c.at
    requires 0 <= Wanted(bps, u) < UINT_RANGE && (c.wait || Open(bps, u))
    ensures Valid(bps, Limit(bps, u, c).0)
  {
    assert u.last <= u.now;
    hide Limit, Wanted, Pay, PerThousand, Pause, Duration, Bytes, Timed, AllPaid, Valid, Open;
    LimitPauses(bps, u, c);
    var w := Wanted(bps, u);
    if u.now == u.last && u.curr >= bps { BurstWants(bps, u); }
    WantedPays(bps, u, u.now - u.last + w);
    WantedPays(bps, u, u.now - u.last + w + c.late);
    PaidPauseKeeps(bps, u, c, w);
  }

  /** A sleep that makes the window old enough to pay for its bytes keeps the account. */
  lemma PaidPauseKeeps(bps: nat, u: Throttle, c: Call, w: nat)
    requires bps > 0 && Timed(u) && AllPaid(bps, u.closed) && u.start <= u.last <= u.now == c.at
    requires u.curr * 1000 <= Pay(bps, u.now - u.last + w + 1) || (u.curr < bps && u.now == u.last)
    requires u.curr * 1000 <= Pay(bps, u.now - u.last + w + c.late + 1) || (u.curr < bps && u.now == u.last)
    requires c.wait || Open(bps, u)
    requires u.now == u.last && u.curr >= bps ==> w >= 1000 && c.wait
    ensures Valid(bps, Pause(bps, u, c, w).0)
  {
    hide Pay, Pause, Duration, Bytes, Timed, AllPaid, Valid;
    PauseExactly(bps, u, c, w);
  }

  /** Every call keeps count of the bytes, and the clock. */
  lemma AddBytesCounts(bps: nat, t: Throttle, c: Call)
    requires bps > 0 && Valid(bps, t) && t.now <= c.at
    ensures var r := AddBytes(bps, t, c).0;
            Timed(r) && Counted(r) == Counted(t) + c.bytes && r.start == t.start && r.now >= c.at
  {
    BeginBounds(bps, t, c);
    var u := Begin(t, c);
    WantedNonNegative(bps, u);
    LimitPauses(bps, u, c);
    hide Limit, Begin, Wanted, Open, Pay, Pause, Duration, Bytes, Timed, AllPaid, Counted;
    PauseExactly(bps, u, c, Wanted(bps, u) % UINT_RANGE);
  }

  /** Every call in proper use keeps the account. */
  lemma AddBytesKeeps(bps: nat, t: Throttle, c: Call)
    requires bps > 0 && Valid(bps, t) && Proper(bps, t, c)
    ensures Valid(bps, AddBytes(bps, t, c).0)
  {
    BeginBounds(bps, t, c);
    WantedNonNegative(bps, Begin(t, c));
    hide Limit, Begin, Wanted, Open, Pay, Duration, Bytes, Timed, AllPaid;
    LimitKeeps(bps, Begin(t, c), c);
  }

  // ---------------------------------------------------------------------------------------
  // When a call breaks the account

  /** A sleep pays for its window if and only if nothing of it was cut off. */
  lemma CutSleepPaysExactly(bps: nat, u: Throttle)
    requires bps >= 2 && 0 <= u.now - u.last <= 1000 && Wanted(bps, u) > 0
    ensures u.curr * 1000 <= Pay(bps, u.now - u.last + Wanted(bps, u) % UINT_RANGE + 1) || u.curr < bps <==>
            Wanted(bps, u) < UINT_RANGE
    ensures u.curr * 1000 <= Pay(bps, u.now - u.last + Wanted(bps, u) % UINT_RANGE + 1) <==> Wanted(bps, u) < UINT_RANGE
  {
    var age, w := u.now - u.last, Wanted(bps, u);
    if w < UINT_RANGE {
      WantedPays(bps, u, age + w);
    } else {
      assert PerThousand(u.curr, bps) >= age + w;
      QuotientBounds(u.curr * 1000, bps, age + w);
      CutTooFar(bps, age, w, w % UINT_RANGE);
    }
  }

  lemma CutTooFar(bps: nat, age: nat, w: nat, cut: nat)
    requires bps >= 2 && age <= 1000 && cut < UINT_RANGE && w >= cut + UINT_RANGE
    ensures Pay(bps, age + cut + 1) < (age + w) * bps && 1000 * bps <= (age + w) * bps
  {
    var d := w - cut;
    assert (age + w) * bps == (age + cut) * bps + d * bps;
    assert Pay(bps, age + cut + 1) == (age + cut) * bps + bps + age + cut + 1;
    assert d * bps >= UINT_RANGE * bps;
  }

  /**
   * A call that wakes up in time keeps the account if and only if it waits and its sleep fits 32 bits, or
   * does not wait and leaves the window paid for.
   */
  lemma CallKeepsExactly(bps: nat, t: Throttle, c: Call)
    requires bps >= 2 && Valid(bps, t) && t.now <= c.at && c.late == 0
    ensures Valid(bps, AddBytes(bps, t, c).0) <==>
            if c.wait then Wanted(bps, Begin(t, c)) < UINT_RANGE else Open(bps, Begin(t, c))
  {
    BeginBounds(bps, t, c);
    var u := Begin(t, c);
    WantedNonNegative(bps, u);
    hide Limit, Begin, Wanted, Pay, Duration, Bytes, Timed, AllPaid, Valid, Open, Counted;
    if c.wait {
      if Wanted(bps, u) < UINT_RANGE { LimitKeeps(bps, u, c); } else { CutSleepBreaks(bps, u, c); }
    } else {
      UnwaitedExactly(bps, u, c);
    }
  }

  lemma CutSleepBreaks(bps: nat, u: Throttle, c: Call)
    requires bps >= 2 && Timed(u) && AllPaid(bps, u.closed) && u.last >= u.start && u.now == c.at
    requires u.now - u.last <= 1000
    requires c.wait && c.late == 0 && Wanted(bps, u) >= UINT_RANGE
    ensures !Valid(bps, Limit(bps, u, c).0)
  {
    hide Limit, Wanted, Pay, Pause, Duration, Bytes, AllPaid, Valid;
    LimitPauses(bps, u, c);
    CutSleepPaysExactly(bps, u);
    ShortSleepBreaks(bps, u, c, Wanted(bps, u) % UINT_RANGE);
  }

  /** A sleep that leaves the window unpaid breaks the account, whether the window is closed or stays open. */
  lemma ShortSleepBreaks(bps: nat, u: Throttle, c: Call, sleep: nat)
    requires bps > 0 && Timed(u) && AllPaid(bps, u.closed) && u.last >= u.start && u.now == c.at && c.wait
    requires c.late == 0
    requires u.curr >= bps && u.curr * 1000 > Pay(bps, u.now - u.last + sleep + 1)
    ensures !Valid(bps, Pause(bps, u, c, sleep).0)
  {
    hide Pay, Pause, Duration, Bytes, Timed, AllPaid, Valid;
    PauseExactly(bps, u, c, sleep);
  }

  lemma UnwaitedExactly(bps: nat, u: Throttle, c: Call)
    requires bps > 0 && Timed(u) && AllPaid(bps, u.closed) && u.last >= u.start && u.now == c.at
    requires !c.wait && c.late == 0 && Wanted(bps, u) >= 0
    ensures Valid(bps, Limit(bps, u, c).0) <==> Open(bps, u)
  {
    LimitPauses(bps, u, c);
    if u.now == u.last && u.curr >= bps { BurstWants(bps, u); }
    hide Limit, Wanted, Pay, Pause, Duration, Bytes, Timed, AllPaid, Valid;
    PauseExactly(bps, u, c, Wanted(bps, u) % UINT_RANGE);
  }

  // ---------------------------------------------------------------------------------------
  // Runs

  predicate ProperRun(bps: nat, t: Throttle, calls: seq<Call>)
    decreases |calls|
  {
    calls == [] || (Proper(bps, t, calls[0]) && ProperRun(bps, AddBytes(bps, t, calls[0]).0, calls[1..]))
  }

  function After(bps: nat, t: Throttle, calls: seq<Call>): Throttle
    requires ProperRun(bps, t, calls)
    decreases |calls|
  {
    if calls == [] then t else After(bps, AddBytes(bps, t, calls[0]).0, calls[1..])
  }

  function Total(calls: seq<Call>): nat
    decreases |calls|
  {
    if calls == [] then 0 else calls[0].bytes + Total(calls[1..])
  }

  lemma {:induction false} RunKeeps(bps: nat, t: Throttle, calls: seq<Call>)
    requires bps > 0 && Valid(bps, t) && ProperRun(bps, t, calls)
    ensures var r := After(bps, t, calls);
            Valid(bps, r) && Counted(r) == Counted(t) + Total(calls) && r.start == t.start
    decreases |calls|
  {
    if calls != [] {
      hide Valid, AddBytes, Counted;
      AddBytesCounts(bps, t, calls[0]);
      AddBytesKeeps(bps, t, calls[0]);
      RunKeeps(bps, AddBytes(bps, t, calls[0]).0, calls[1..]);
    }
  }

  /**
   * However the calls come, the bytes let through are paid for by the time from the first call to the last
   * return, one millisecond for each window, and one second's worth for the window that is open; and
   * every window is a second long or longer.
   */
  lemma LongRunBound(bps: nat, now: int, calls: seq<Call>)
    requires bps > 0 && now >= 0 && ProperRun(bps, Fresh(now), calls)
    ensures var r := After(bps, Fresh(now), calls);
            && r.start == (if now > 1000 then now else 0)
            && Total(calls) * 1000 <= (bps + 1) * (r.now - r.start + |r.closed| + 1) + 1000 * bps
            && (forall w <- r.closed :: w.length >= 1000 && w.bytes * 1000 <= (bps + 1) * (w.length + 1))
            && |r.closed| * 1000 <= r.now - r.start
  {
    FreshValid(bps, now);
    RunKeeps(bps, Fresh(now), calls);
    var r := After(bps, Fresh(now), calls);
    ClosedPay(bps, r.closed);
    forall w <- r.closed ensures Paid(bps, w) { }
    if r.last >= r.start {
      PayAdds(bps, Duration(r.closed) + |r.closed|, r.now - r.last + 1);
      PayGrows(bps, 0, r.now - r.last + 1);
      PayGrows(bps, Duration(r.closed) + |r.closed| + (r.now - r.last + 1), r.now - r.start + |r.closed| + 1);
    } else {
      PayGrows(bps, 0, r.now - r.start + |r.closed| + 1);
    }
  }

  /** A call that its caller can tell to be harmless: it waits or only asks, and is not too large for the limit. */
  predicate Modest(bps: nat, c: Call) { (c.wait || c.bytes == 0) && c.bytes <= 4_000_000 * bps }

  /** Each call comes after the one before it has returned. */
  predicate InTurn(bps: nat, t: Throttle, calls: seq<Call>)
    decreases |calls|
  {
    calls == [] || (t.last <= t.now <= calls[0].at && InTurn(bps, AddBytes(bps, t, calls[0]).0, calls[1..]))
  }

  lemma {:induction false} ModestRunIsProper(bps: nat, t: Throttle, calls: seq<Call>)
    requires bps > 0 && Valid(bps, t) && InTurn(bps, t, calls) && forall c <- calls :: Modest(bps, c)
    ensures ProperRun(bps, t, calls)
    decreases |calls|
  {
    if calls != [] {
      hide Valid, AddBytes, Begin, Wanted;
      assert Modest(bps, calls[0]);
      ModestCallFits(bps, t, calls[0]);
      AddBytesKeeps(bps, t, calls[0]);
      ModestRunIsProper(bps, AddBytes(bps, t, calls[0]).0, calls[1..]);
    }
  }

  /** The bound, from what callers can see to. */
  lemma ModestRunBound(bps: nat, now: int, calls: seq<Call>)
    requires bps > 0 && now >= 0 && InTurn(bps, Fresh(now), calls) && forall c <- calls :: Modest(bps, c)
    ensures ProperRun(bps, Fresh(now), calls)
    ensures var r := After(bps, Fresh(now), calls);
            && Total(calls) * 1000 <= (bps + 1) * (r.now - r.start + |r.closed| + 1) + 1000 * bps
            && |r.closed| * 1000 <= r.now - r.start
  {
    FreshValid(bps, now);
    ModestRunIsProper(bps, Fresh(now), calls);
    LongRunBound(bps, now, calls);
  }

  // ---------------------------------------------------------------------------------------
  // Calls outside proper use

  /** The call begins a window of its own. */
  predicate NewWindow(t: Throttle, c: Call) {
    t.last <= t.now <= c.at && t.start <= t.last && (c.at - t.last > 1000 || (t.curr == 0 && t.last == c.at))
  }

  /**
   * At the beginning of a window a waiting call keeps the account if and only if its bytes take less than 2^32 ms,
   * and another one if and only if it brings less than a second's worth.
   */
  lemma NewWindowExactly(bps: nat, t: Throttle, c: Call)
    requires bps >= 2 && Valid(bps, t) && NewWindow(t, c) && c.late == 0
    ensures Valid(bps, AddBytes(bps, t, c).0) <==> if c.wait then c.bytes * 1000 < UINT_RANGE * bps else c.bytes < bps
  {
    hide Valid, AddBytes;
    CallKeepsExactly(bps, t, c);
    QuotientBounds(c.bytes * 1000, bps, UINT_RANGE);
    assert Pay(bps, 1) == bps + 1;
  }

  /** A longer sleep is cut down: the window is closed after the remainder modulo 2^32 ms, with all its bytes. */
  lemma LongSleepIsLost(bps: nat, t: Throttle, c: Call)
    requires bps > 0 && NewWindow(t, c) && c.wait && c.late == 0 && c.bytes >= bps
    ensures var r, slept := AddBytes(bps, t, c).0, c.bytes * 1000 / bps % UINT_RANGE;
            r.now == c.at + slept && r.closed != [] && r.closed[|r.closed| - 1] == Window(slept, c.bytes)
  {
  }

  /** Without waiting there is no limit: every call of a second's worth of bytes starts a new window at once. */
  lemma {:induction false} UnwaitedCalls(bps: nat, t: Throttle, n: nat) returns (r: Throttle)
    requires bps > 0 && t.curr == 0 && t.last == t.now >= t.start
    ensures r.now == t.now && Counted(r) == Counted(t) + n * bps && r.curr == 0 && r.last == r.now >= r.start
  {
    if n == 0 {
      r := t;
    } else {
      hide AddBytes, Counted;
      var u := UnwaitedCalls(bps, t, n - 1);
      r := AddBytes(bps, u, Call(bps, false, u.now, 0, 0)).0;
      UnwaitedCall(bps, u);
      OneMoreSecond(bps, n);
    }
  }

  lemma OneMoreSecond(bps: nat, n: nat)
    requires n > 0
    ensures n * bps == (n - 1) * bps + bps
  {
  }

  lemma UnwaitedCall(bps: nat, u: Throttle)
    requires bps > 0 && u.curr == 0 && u.last == u.now >= u.start
    ensures var r := AddBytes(bps, u, Call(bps, false, u.now, 0, 0)).0;
            r.now == r.last == u.now && r.start == u.start && r.curr == 0 && Counted(r) == Counted(u) + bps
  {
    hide Wanted;
    var r := AddBytes(bps, u, Call(bps, false, u.now, 0, 0)).0;
    assert r.closed == u.closed + [Window(0, bps)];
    assert r.closed[..|u.closed|] == u.closed;
  }
}

/** The object, and a loop of calls on it. */
module PipeThrottler {
  import opened Throttling

  class Throttler {
    const bps: nat
    var currBytes: nat
    var lastReset: int
    ghost var record: Throttle

    ghost predicate Valid()
      reads this
    {
      record.curr == currBytes && record.last == lastReset <= record.now
    }

    constructor (limit: nat, ghost now: int)
      requires now >= 0
      ensures Valid() && bps == limit && record == Fresh(now)
    {
      bps := limit;
      currBytes, lastReset := 0, 0;
      record := Fresh(now);
    }

    /** One call of addBytes, of any kind and with any limit; end is the time when it returns. */
    method AddBytes(c: Call) returns (go: bool, end: int)
      requires Valid() && record.now <= c.at
      modifies this`currBytes, this`lastReset, this`record
      ensures Valid()
      ensures record == Throttling.AddBytes(bps, old(record), c).0
      ensures go <==> MayGo(bps, WindowBytes(old(record), c), WindowAge(old(record), c))
      ensures end == record.now >= c.at
    {
      ghost var after := Throttling.AddBytes(bps, record, c);
      AnswerExactly(bps, record, c);
      hide MayGo, WindowBytes, WindowAge;
      go, end := true, c.at;
      if bps > 0 {
        ghost var u := Begin(record, c);
        WantedNonNegative(bps, u);
        if c.at - lastReset > 1000 {
          lastReset := c.at;
          currBytes := 0;
        }
        currBytes := currBytes + c.bytes;
        assert u.curr == currBytes && u.last == lastReset <= u.now == c.at;
        hide Begin, Limit, Wanted;
        go, end := Restrict(c, u);
      }
      record := after.0;
    }

    /** The second half of addBytes: how long to sleep, and whether the window ends. */
    method Restrict(c: Call, ghost u: Throttle) returns (go: bool, end: int)
      requires bps > 0 && u.curr == currBytes && u.last == lastReset <= u.now == c.at && Wanted(bps, u) >= 0
      modifies this`currBytes, this`lastReset
      ensures var r := Limit(bps, u, c); currBytes == r.0.curr && lastReset == r.0.last && end == r.0.now && go == r.1
      ensures lastReset <= end && end >= c.at
    {
      var passed := c.at - lastReset;
      hide PerThousand;
      var maxRateTime := PerThousand(currBytes, bps);
      go, end := true, c.at;
      if passed > 0 {
        var rate := PerThousand(currBytes, passed);
        var sleepTime := if rate > bps then (maxRateTime - passed) % UINT_RANGE else 0;
        assert sleepTime == Wanted(bps, u) % UINT_RANGE;
        hide Wanted;
        if sleepTime > 0 {
          if c.wait {
            var woken := c.at + sleepTime + c.late;
            end := woken;
            if woken - lastReset > 1000 {
              currBytes := 0;
              lastReset := woken + c.later;
              end := woken + c.later;
            }
          }
          go := false;
        }
      } else if currBytes >= bps {
        assert maxRateTime == Wanted(bps, u);
        hide Wanted;
        end := if c.wait then c.at + maxRateTime % UINT_RANGE + c.late else c.at + c.late;
        currBytes := 0;
        lastReset := end;
        go := false;
      }
    }
  }

  /** The bound, for a loop of calls on the object. */
  method Transfer(bps: nat, now: int, calls: seq<Call>) returns (total: nat, end: int)
    requires bps > 0 && now >= 0 && InTurn(bps, Fresh(now), calls) && forall c <- calls :: Modest(bps, c)
    ensures total == Total(calls)
    ensures var start := if now > 1000 then now else 0;
            total * 1000 <= (bps + 1) * (end - start + (end - start) / 1000 + 1) + 1000 * bps
  {
    ModestRunBound(bps, now, calls);
    hide Throttling.AddBytes;
    var t := new Throttler(bps, now);
    total, end := 0, now;
    var i := 0;
    while i < |calls|
      invariant i <= |calls| && t.Valid() && t.bps == bps && fresh(t) && t.record.now == end
      invariant total + Total(calls[i..]) == Total(calls)
      invariant ProperRun(bps, t.record, calls[i..])
      invariant After(bps, t.record, calls[i..]) == After(bps, Fresh(now), calls)
    {
      assert calls[i..][1..] == calls[i + 1..];
      var go;
      go, end := t.AddBytes(calls[i]);
      total := total + calls[i].bytes;
      i := i + 1;
    }
    assert calls[i..] == [];
    ghost var r, start := t.record, if now > 1000 then now else 0;
    LongRunBound(bps, now, calls);
    PayGrows(bps, r.now - start + |r.closed| + 1, end - start + (end - start) / 1000 + 1);
  }
}
