/**
 When a game event is on, and for how long the answer cannot change. Times are in seconds;
 occurrence and length are given in minutes and multiplied in 32 bits.
 */
module GameEventSchedule {
  import opened Bytes

  const MAX_CHECK_DELAY := 86400
  const MINUTE := 60
  const DAY := 86400

  datatype EventData = EventData(
    start: int,
    end: int,
    occurence: nat,
    length: nat,
    hardcoded: bool,
    disabled: bool,
    leapDays: nat)

  /** Only events with a length exist. */
  predicate IsValid(e: EventData) {
    e.length > 0
  }

  /** The seconds from one start to the next. */
  function Period(e: EventData): nat {
    e.occurence * MINUTE % TWO_32
  }

  /** The seconds an occurrence lasts. */
  function Window(e: EventData): nat {
    e.length * MINUTE % TWO_32
  }

  /** The remainder of a division that truncates toward zero. */
  function Rem(a: int, b: int): (r: int)
    requires b > 0
    ensures -b < r < b && (a >= 0 ==> r >= 0) && (a <= 0 ==> r <= 0)
  {
    if a >= 0 then a % b else -((-a) % b)
  }

  /** Seconds since the event's first start, less its leap days. */
  function Elapsed(e: EventData, t: int): int {
    t - e.start - e.leapDays * DAY
  }

  predicate InWindow(e: EventData, t: int)
    requires Period(e) > 0
  {
    Rem(Elapsed(e, t), Period(e)) < Window(e)
  }

  /** Evaluating the event never divides by zero: it repeats, or its lifetime is empty. */
  predicate Proper(e: EventData) {
    e.start > e.end || Period(e) > 0
  }

  predicate CheckOneGameEvent(e: EventData, t: int)
    requires Proper(e)
  {
    e.start <= t && t < e.end && InWindow(e, t)
  }

  /** The delay after which the event has to be looked at again; it is cut to 32 bits. */
  function NextCheck(e: EventData, now: int): nat
    requires Proper(e)
  {
    if now > e.end then MAX_CHECK_DELAY
    else if e.start > now then (e.start - now) % TWO_32
    else
      var delay := RawDelay(e, now) % TWO_32;
      if e.end < now + delay then (e.end - now) % TWO_32 else delay
  }

  function RawDelay(e: EventData, now: int): (d: nat)
    requires Period(e) > 0
    ensures d > 0
  {
    var r := Rem(Elapsed(e, now), Period(e));
    if r < Window(e) then Window(e) - r else Period(e) - r
  }

  /** Neither product of minutes wraps to zero, unless the lifetime is empty. */
  predicate Usable(e: EventData) {
    e.start > e.end || (Period(e) > 0 && Window(e) > 0)
  }

  // ---------- Remainders ----------

  lemma RemSplit(a: int, b: int) returns (k: int)
    requires b > 0
    ensures a == b * k + Rem(a, b)
  {
    if a >= 0 {
      k := a / b;
    } else {
      k := -((-a) / b);
      assert b * k == -(b * ((-a) / b));
    }
  }

  lemma RemIs(a: int, b: int, k: int, r: int)
    requires b > 0 && a == b * k + r
    requires if a >= 0 then 0 <= r < b else -b < r <= 0
    ensures Rem(a, b) == r
  {
    if a >= 0 {
      DivisionIsUnique(a, b, k, r);
    } else {
      assert -a == b * (-k) + (-r);
      DivisionIsUnique(-a, b, -k, -r);
    }
  }

  lemma RemOfLess(a: nat, b: nat)
    requires b > 0
    ensures Rem(a, b) < a <==> a >= b
  {
    if a < b {
      var k := RemSplit(a, b);
      NonNegativeQuotient(a, b, k, Rem(a, b));
      if k > 0 {
        MulMonotone(b, 1, k);
      }
    }
  }

  /** Moving forward by `d` raises the remainder by at most `d`. */
  lemma RemNoMore(a: int, b: int, d: nat)
    requires b > 0
    ensures Rem(a + d, b) <= Rem(a, b) + d
  {
    var r, s := Rem(a, b), Rem(a + d, b);
    var k := RemSplit(a, b);
    var l := RemSplit(a + d, b);
    assert s - r - d == b * k - b * l;
    if k <= l {
      MulMonotone(b, k, l);
    } else {
      MulMonotone(b, l + 1, k);
      SignChange(a, b, d, k, l);
    }
  }

  /** The quotient can only fall when no sign changes, and then the remainders rule it out. */
  lemma SignChange(a: int, b: int, d: nat, k: int, l: int)
    requires b > 0 && a == b * k + Rem(a, b) && a + d == b * l + Rem(a + d, b)
    ensures a < 0 < a + d ==> k <= 0 <= l
  {
    if a < 0 < a + d {
      if k >= 1 { MulMonotone(b, 1, k); }
      if l <= -1 { MulMonotone(b, l, -1); }
    }
  }

  /** Moving forward inside one period after the first start. */
  lemma RemForward(a: int, b: int, d: nat)
    requires b > 0 && a >= 0 && Rem(a, b) + d < b
    ensures Rem(a + d, b) == Rem(a, b) + d
  {
    var k := RemSplit(a, b);
    RemIs(a + d, b, k, Rem(a, b) + d);
  }

  // ---------- The window until the delay is over ----------

  /** Until the delay is over the event stays in its window, or out of it. */
  lemma WindowStable(e: EventData, t: int, u: int)
    requires Period(e) > 0 && Window(e) > 0 && t <= u < t + RawDelay(e, t)
    ensures InWindow(e, u) <==> InWindow(e, t)
  {
    var a, b, d := Elapsed(e, t), Period(e), u - t;
    assert Elapsed(e, u) == a + d;
    if InWindow(e, t) {
      RemNoMore(a, b, d);
    } else {
      RemForward(a, b, d);
    }
  }

  /**
   When the delay is over the event enters or leaves its window, unless it lasts a whole
   period, or its leap days put its first start more than a period ahead.
   */
  lemma WindowFlips(e: EventData, t: int)
    requires Period(e) > 0 && Window(e) > 0
    ensures (InWindow(e, t + RawDelay(e, t)) != InWindow(e, t))
       <==> Window(e) < Period(e) && Elapsed(e, t) + Period(e) > 0
  {
    var a, b, w := Elapsed(e, t), Period(e), Window(e);
    var r, a' := Rem(a, b), Elapsed(e, t + RawDelay(e, t));
    var k := RemSplit(a, b);
    if r >= w {
      assert a' == b * (k + 1) + 0;
      NonNegativeQuotient(a, b, k, r);
      RemIs(a', b, k + 1, 0);
    } else if w < b {
      assert a' == b * k + w;
      if a > -b {
        NonNegativeQuotient(a, b, k, r);
        RemIs(a', b, k, w);
      } else {
        NegativeQuotient(a, b, k, r);
        assert a' == b * (k + 1) + (w - b);
        RemIs(a', b, k + 1, w - b);
      }
    }
  }

  lemma NonNegativeQuotient(a: int, b: int, k: int, r: int)
    requires b > 0 && a > -b && a == b * k + r && -b < r < b && (a >= 0 ==> r >= 0) && (a <= 0 ==> r <= 0)
    ensures k >= 0 && b * k >= 0
  {
    if k < 0 {
      MulMonotone(b, k, -1);
    } else {
      MulMonotone(b, 0, k);
    }
  }

  lemma NegativeQuotient(a: int, b: int, k: int, r: int)
    requires b > 0 && a <= -b && a == b * k + r && -b < r <= 0
    ensures k < 0 && b * (k + 1) <= 0
  {
    if k >= 0 {
      MulMonotone(b, 0, k);
    } else {
      MulMonotone(b, k + 1, 0);
    }
  }

  // ---------- When an event is on ----------

  /** The second lies in the event's round number `k`: the first begins at its start and leap days, and each lasts its length in minutes. */
  predicate InRound(e: EventData, t: int, k: nat) {
    var begin := e.start + 86400 * e.leapDays + (60 * e.occurence % TWO_32) * k;
    begin <= t < begin + 60 * e.length % TWO_32
  }

  /** Ahead of the first round the remainder is not positive, so it is below any length; only a length of 0 is below a negative one alone. */
  predicate OnAhead(e: EventData, t: int)
    requires 60 * e.occurence % TWO_32 > 0
  {
    60 * e.length % TWO_32 > 0 || (e.start + 86400 * e.leapDays - t) % (60 * e.occurence % TWO_32) != 0
  }

  /**
   On by the calendar: from start to end; ahead of the first round all the time, unless the
   length is lost in 32 bits, and from then on just in its rounds.
   */
  ghost predicate Calendar(e: EventData, t: int) {
    && e.start <= t < e.end
    && 60 * e.occurence % TWO_32 > 0
    && if t < e.start + 86400 * e.leapDays then OnAhead(e, t) else exists k: nat :: InRound(e, t, k)
  }

  /** The check finds an event on exactly when the calendar has it on. */
  lemma OnExactly(e: EventData, t: int)
    requires Proper(e)
    ensures CheckOneGameEvent(e, t) <==> Calendar(e, t)
  {
    if e.start <= t < e.end {
      var a, b, w := t - e.start - 86400 * e.leapDays, 60 * e.occurence % TWO_32, 60 * e.length % TWO_32;
      assert a == Elapsed(e, t) && b == Period(e) && w == Window(e);
      assert CheckOneGameEvent(e, t) <==> Rem(a, b) < w;
      hide CheckOneGameEvent, Elapsed, Period, Window, InWindow;
      if a >= 0 {
        RoundsAre(e, t, a, b, w);
      } else {
        AheadAre(e, t, -a, b, w);
      }
    }
  }

  lemma AheadAre(e: EventData, t: int, ahead: nat, b: nat, w: nat)
    requires ahead == e.start + 86400 * e.leapDays - t && b == 60 * e.occurence % TWO_32 && w == 60 * e.length % TWO_32 && b > 0
    requires ahead > 0
    ensures Rem(0 - ahead, b) < w <==> OnAhead(e, t)
  {
    assert Rem(0 - ahead, b) == -(ahead % b);
  }

  lemma RoundsAre(e: EventData, t: int, a: nat, b: nat, w: nat)
    requires a == t - e.start - 86400 * e.leapDays && b == 60 * e.occurence % TWO_32 && w == 60 * e.length % TWO_32 && b > 0
    ensures Rem(a, b) < w <==> exists k: nat :: InRound(e, t, k)
  {
    var q := RemSplit(a, b);
    if q < 0 {
      MulMonotone(b, q, -1);
    }
    if Rem(a, b) < w {
      var n: nat := q;
      assert b * n == b * q;
      assert InRound(e, t, n);
    }
    if k: nat :| InRound(e, t, k) {
      if k > q {
        MulMonotone(b, q + 1, k);
      } else {
        MulMonotone(b, k, q);
      }
    }
  }

  /** Without wrapping, from its first round on: some round begun, every `occurence` minutes, has not lasted `length` minutes. */
  lemma OnInRounds(e: EventData, t: int)
    requires 0 < 60 * e.occurence < TWO_32 && 60 * e.length < TWO_32
    requires e.start + 86400 * e.leapDays <= t < e.end
    ensures CheckOneGameEvent(e, t) <==>
      exists k: nat :: InRound(e, t, k)
    ensures forall k: nat :: InRound(e, t, k) <==>
      var begin := e.start + 86400 * e.leapDays + (60 * e.occurence) * k; begin <= t < begin + 60 * e.length
  {
    OnExactly(e, t);
    hide CheckOneGameEvent;
    assert 60 * e.occurence % TWO_32 == 60 * e.occurence && 60 * e.length % TWO_32 == 60 * e.length;
  }

  // ---------- The check until the next check ----------

  /** Whether the event is on does not change before the next check. */
  lemma CheckStable(e: EventData, now: int, u: int)
    requires Usable(e) && now <= u < now + NextCheck(e, now)
    ensures CheckOneGameEvent(e, u) <==> CheckOneGameEvent(e, now)
  {
    if e.start <= now <= e.end {
      WindowStable(e, now, u);
    }
  }

  /** An event still to start is off, and starts at the next check. */
  lemma StartsAtNextCheck(e: EventData, now: int)
    requires Usable(e) && now < e.start < e.end && e.start - now < TWO_32
    ensures now + NextCheck(e, now) == e.start
    ensures !CheckOneGameEvent(e, now) && CheckOneGameEvent(e, e.start)
  {
    assert Elapsed(e, e.start) <= 0;
  }

  /**
   Within its lifetime the event is off at the next check if it ends by then; otherwise it is
   switched, unless it lasts a whole period, or its leap days put its first start more than a
   period ahead.
   */
  lemma FlipsAtNextCheck(e: EventData, now: int)
    requires Usable(e) && e.start <= now <= e.end && RawDelay(e, now) < TWO_32
    ensures var next := now + NextCheck(e, now);
      && (next == e.end ==> !CheckOneGameEvent(e, next))
      && (next < e.end ==> (CheckOneGameEvent(e, next) != CheckOneGameEvent(e, now)
                            <==> Window(e) < Period(e) && Elapsed(e, now) + Period(e) > 0))
  {
    WindowFlips(e, now);
    NextCheckInside(e, now);
    hide Rem, Elapsed, Period, Window, InWindow, RawDelay, NextCheck;
  }

  lemma NextCheckInside(e: EventData, now: int)
    requires Period(e) > 0 && e.start <= now <= e.end && RawDelay(e, now) < TWO_32
    ensures now + NextCheck(e, now) == if e.end < now + RawDelay(e, now) then e.end else now + RawDelay(e, now)
  {
    hide Rem, Elapsed, Period, Window, InWindow, RawDelay;
    WrapsNot(RawDelay(e, now));
    if e.end < now + RawDelay(e, now) {
      WrapsNot(e.end - now);
    }
  }

  lemma WrapsNot(x: int)
    requires 0 <= x < TWO_32
    ensures x % TWO_32 == x
  {
  }

  // ---------- The delay over all events ----------

  /** Events the schedule decides: neither hardcoded nor disabled. */
  predicate Regular(e: EventData) {
    !e.hardcoded && !e.disabled
  }

  /** The least delay over the regular events from number `i` on, and `sofar`. */
  function LeastDelay(events: seq<EventData>, now: int, i: nat, sofar: nat): nat
    requires forall k :: i <= k < |events| && Regular(events[k]) ==> Proper(events[k])
    decreases |events| - i
  {
    if i >= |events| then sofar
    else if Regular(events[i]) && NextCheck(events[i], now) < sofar then
      LeastDelay(events, now, i + 1, NextCheck(events[i], now))
    else LeastDelay(events, now, i + 1, sofar)
  }

  lemma {:induction false} LeastDelayIsLeast(events: seq<EventData>, now: int, i: nat, sofar: nat)
    requires forall k :: i <= k < |events| && Regular(events[k]) ==> Proper(events[k])
    ensures LeastDelay(events, now, i, sofar) <= sofar
    ensures forall k :: i <= k < |events| && Regular(events[k]) ==> LeastDelay(events, now, i, sofar) <= NextCheck(events[k], now)
    decreases |events| - i
  {
    if i < |events| {
      LeastDelayIsLeast(events, now, i + 1,
        if Regular(events[i]) && NextCheck(events[i], now) < sofar then NextCheck(events[i], now) else sofar);
    }
  }

  /** The delay is the starting value, or that of some regular event. */
  lemma {:induction false} LeastDelayIsAttained(events: seq<EventData>, now: int, i: nat, sofar: nat)
    requires forall k :: i <= k < |events| && Regular(events[k]) ==> Proper(events[k])
    ensures var d := LeastDelay(events, now, i, sofar);
      d == sofar || exists k :: i <= k < |events| && Regular(events[k]) && d == NextCheck(events[k], now)
    decreases |events| - i
  {
    if i < |events| {
      LeastDelayIsAttained(events, now, i + 1,
        if Regular(events[i]) && NextCheck(events[i], now) < sofar then NextCheck(events[i], now) else sofar);
    }
  }

  /** No regular event starts or stops before the second the next update aims at. */
  lemma NothingMissed(events: seq<EventData>, now: int, sofar: nat, k: nat, u: int)
    requires forall i :: 1 <= i < |events| && Regular(events[i]) ==> Proper(events[i]) && Usable(events[i])
    requires 1 <= k < |events| && Regular(events[k])
    requires now <= u < now + LeastDelay(events, now, 1, sofar)
    ensures CheckOneGameEvent(events[k], u) <==> CheckOneGameEvent(events[k], now)
  {
    LeastDelayIsLeast(events, now, 1, sofar);
    CheckStable(events[k], now, u);
  }
}
