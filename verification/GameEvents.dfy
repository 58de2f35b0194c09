/**
 Starting and stopping game events: the active set, the spawn slots, the status table that
 survives a restart, and the mails, as every command, update and restart changes them.
 */
module GameEvents {
  import opened GameEventSchedule

  /** Event `id` owns two of the slots: its own, and one for `-id` that is up while it is off. */
  function Slot(size: nat, id: int): int {
    size + id - 1
  }

  function Opposite(id: nat): int {
    -(id as int)
  }

  predicate InRange(size: nat, id: int) {
    0 <= Slot(size, id) < 2 * size - 1
  }

  datatype State = State(
    events: seq<EventData>,
    listed: set<nat>,
    active: set<nat>,
    persisted: set<nat>,
    spawned: set<int>,
    mails: seq<int>,
    initialised: bool)

  /** An event table: number 0 is reserved, ids fit a signed 16-bit number, periods are not zero. */
  predicate Table(events: seq<EventData>) {
    && 1 <= |events| <= 0x8000
    && !IsValid(events[0])
    && forall i :: 0 <= i < |events| ==> Proper(events[i]) && (IsValid(events[i]) ==> Period(events[i]) > 0)
  }

  predicate IsValidEvent(s: State, id: nat) {
    id < |s.events| && IsValid(s.events[id])
  }

  // ---------- What one call does ----------

  function Spawn(s: State, id: int): State {
    if InRange(|s.events|, id) then s.(spawned := s.spawned + {Slot(|s.events|, id)}) else s
  }

  function Unspawn(s: State, id: int): State {
    if InRange(|s.events|, id) then s.(spawned := s.spawned - {Slot(|s.events|, id)}) else s
  }

  function Apply(s: State, id: nat, resume: bool): State {
    var t := s.(active := s.active + {id}, persisted := s.persisted + {id});
    var u := Unspawn(Spawn(t, id), Opposite(id));
    if resume then u else u.(mails := u.mails + [id])
  }

  function UnApply(s: State, id: nat): State {
    var t := s.(active := s.active - {id}, persisted := s.persisted - {id});
    var u := Spawn(Unspawn(t, id), Opposite(id));
    u.(mails := u.mails + [Opposite(id)])
  }

  /** Moves the event's start; an end already passed becomes a length in minutes counted as seconds. */
  function Moved(e: EventData, start: int): EventData {
    e.(start := start, end := if e.end <= start then start + e.length else e.end)
  }

  function Start(s: State, id: nat, overwrite: bool, resume: bool, now: int): State {
    if !IsValidEvent(s, id) then s
    else
      var t := Apply(s, id, resume);
      if overwrite then t.(events := s.events[id := Moved(s.events[id], now)]) else t
  }

  function Stop(s: State, id: nat, overwrite: bool, now: int): State {
    if !IsValidEvent(s, id) then s
    else
      var t := UnApply(s, id);
      if overwrite then t.(events := s.events[id := Moved(s.events[id], now - Window(s.events[id]))]) else t
  }

  /** A change of the flag stops an active event, whichever way the flag changes. */
  function Enable(s: State, id: nat, on: bool, now: int): State {
    if !IsValidEvent(s, id) || s.events[id].disabled == !on then s
    else
      var t := s.(events := s.events[id := s.events[id].(disabled := !on)]);
      if id in s.active && id !in s.listed then Stop(t, id, true, now) else t
  }

  /**
   Started by overwriting, an event begins now, its passed end is its length in minutes counted as
   seconds from now, and the schedule has it on at once if its length is not lost in 32 bits.
   */
  lemma StartedIsOn(s: State, id: nat, now: int)
    requires Table(s.events) && IsValidEvent(s, id)
    ensures var e, t := s.events[id], Act(s, StartEvent(id, true), now);
      && |t.events| == |s.events| && (forall k :: 0 <= k < |s.events| && k != id ==> t.events[k] == s.events[k])
      && t.events[id] == EventData(now, if e.end <= now then now + e.length else e.end, e.occurence, e.length, e.hardcoded, e.disabled, e.leapDays)
      && (60 * e.length % 0x1_0000_0000 > 0 ==> CheckOneGameEvent(t.events[id], now))
  {
  }

  /**
   Stopped by overwriting, an event began its length ago. Without leap days the schedule has it
   off at once just when it lasts less than a round, or its end has passed.
   */
  lemma StoppedIsOff(s: State, id: nat, now: int)
    requires Table(s.events) && IsValidEvent(s, id)
    ensures var e, t := s.events[id], Act(s, StopEvent(id, true), now);
      var begun := now - 60 * e.length % 0x1_0000_0000;
      && |t.events| == |s.events| && (forall k :: 0 <= k < |s.events| && k != id ==> t.events[k] == s.events[k])
      && t.events[id] == EventData(begun, if e.end <= begun then begun + e.length else e.end, e.occurence, e.length, e.hardcoded, e.disabled, e.leapDays)
      && (e.leapDays == 0 ==>
            (CheckOneGameEvent(t.events[id], now) <==>
               now < t.events[id].end && 60 * e.length % 0x1_0000_0000 >= 60 * e.occurence % 0x1_0000_0000 && e.length * 60 % 0x1_0000_0000 > 0))
  {
    if s.events[id].leapDays == 0 {
      StartedAgo(s.events[id], now);
    }
    hide CheckOneGameEvent;
  }

  /** An event that began its length ago is at the end of its round, and on only if that is past the next start. */
  lemma StartedAgo(e: EventData, now: int)
    requires Period(e) > 0 && e.leapDays == 0
    ensures var t := Moved(e, now - Window(e));
      CheckOneGameEvent(t, now) <==> now < t.end && Window(e) >= Period(e) && Window(e) > 0
  {
    var t := Moved(e, now - Window(e));
    assert Period(t) == Period(e) && Window(t) == Window(e);
    assert Elapsed(t, now) == Window(e);
    hide Period, Window;
    RemOfLess(Window(e), Period(e));
  }

  /**
   Enabling or disabling does something only if it changes the flag of an existing event. The
   event is then stopped, by overwriting and with a mail, if it is active and not on the hardcoded
   list, even when it is being enabled.
   */
  lemma EnableIs(s: State, id: nat, on: bool, now: int)
    requires Table(s.events)
    ensures var t := Act(s, EnableEvent(id, on), now);
      if id >= |s.events| || s.events[id].length == 0 || s.events[id].disabled != on then t == s
      else
        && |t.events| == |s.events| && (forall k :: 0 <= k < |s.events| && k != id ==> t.events[k] == s.events[k])
        && t.events[id].disabled == !on
        && if id in s.active && id !in s.listed then
             && t.active == s.active - {id} && t.mails == s.mails + [-(id as int)]
             && t.events[id].start == now - 60 * s.events[id].length % 0x1_0000_0000
           else t.active == s.active && t.mails == s.mails && t.spawned == s.spawned && t.events[id].start == s.events[id].start
  {
  }

  /** One turn of the update's loop. */
  function Visit(s: State, i: nat, now: int, resumed: set<nat>): (t: State)
    requires i < |s.events| && Table(s.events)
    ensures t.events == s.events
  {
    if !Regular(s.events[i]) then s
    else if CheckOneGameEvent(s.events[i], now) then
      if i in s.active then s else Start(s, i, false, i in resumed, now)
    else if i in s.active then Stop(s, i, false, now)
    else if !s.initialised then Spawn(s, Opposite(i))
    else s
  }

  lemma VisitSkips(s: State, i: nat, now: int, resumed: set<nat>)
    requires i < |s.events| && Table(s.events) && !Regular(s.events[i])
    ensures Visit(s, i, now, resumed) == s
  {
  }

  function VisitAll(s: State, i: nat, now: int, resumed: set<nat>): (t: State)
    requires Table(s.events)
    ensures t.events == s.events
    decreases |s.events| - i
  {
    if i >= |s.events| then s else VisitAll(Visit(s, i, now, resumed), i + 1, now, resumed)
  }

  /** The least delay in milliseconds, with one second more; `wanted` is what hardcoded events ask for. */
  function Delay(events: seq<EventData>, now: int, wanted: nat): nat
    requires Table(events)
  {
    (LeastDelay(events, now, 1, if wanted < MAX_CHECK_DELAY then wanted else MAX_CHECK_DELAY) + 1) * 1000
  }

  /** The delay is a second more than the least of a day, what hardcoded events want, and the seconds to each regular event's next check. */
  lemma DelayIsLeast(events: seq<EventData>, now: int, wanted: nat) returns (seconds: nat)
    requires Table(events)
    ensures Delay(events, now, wanted) == 1000 * seconds + 1000
    ensures seconds <= 86400 && seconds <= wanted
    ensures forall k :: 1 <= k < |events| && Regular(events[k]) ==> seconds <= NextCheck(events[k], now)
    ensures seconds == 86400 || seconds == wanted || exists k :: 1 <= k < |events| && Regular(events[k]) && seconds == NextCheck(events[k], now)
  {
    hide NextCheck, LeastDelay, IsValid;
    var sofar := if wanted < 86400 then wanted else 86400;
    seconds := LeastDelay(events, now, 1, sofar);
    LeastDelayIsLeast(events, now, 1, sofar);
    LeastDelayIsAttained(events, now, 1, sofar);
  }

  // ---------- Commands ----------

  /** What anyone may ask of the manager, hardcoded events included. */
  datatype Call =
    | StartEvent(id: nat, overwrite: bool)
    | StopEvent(id: nat, overwrite: bool)
    | EnableEvent(id: nat, on: bool)

  function Act(s: State, c: Call, now: int): (t: State)
    requires Table(s.events)
    ensures Table(t.events) && t.listed == s.listed && t.initialised == s.initialised
  {
    match c
    case StartEvent(id, overwrite) => Start(s, id, overwrite, false, now)
    case StopEvent(id, overwrite) => Stop(s, id, overwrite, now)
    case EnableEvent(id, on) => Enable(s, id, on, now)
  }

  function ActAll(s: State, calls: seq<Call>, now: int): (t: State)
    requires Table(s.events)
    ensures Table(t.events) && t.listed == s.listed && t.initialised == s.initialised
    decreases |calls|
  {
    if calls == [] then s else ActAll(Act(s, calls[0], now), calls[1..], now)
  }

  /** The first update: `calls` are what the hardcoded events ask for before its loop. */
  function Initialize(s: State, calls: seq<Call>, now: int): State
    requires Table(s.events)
  {
    VisitAll(ActAll(s.(active := {}, persisted := {}), calls, now), 1, now, s.persisted).(initialised := true)
  }

  /**
   An update begins with what the hardcoded events ask for. A restart loses all but the status
   table and the mails sent, and may load another table.
   */
  datatype Command =
    | Order(call: Call)
    | Update(calls: seq<Call>)
    | Restart(events: seq<EventData>, listed: set<nat>, calls: seq<Call>)

  predicate Legal(c: Command) {
    c.Restart? ==> Table(c.events)
  }

  function Loaded(s: State, events: seq<EventData>, listed: set<nat>): State {
    State(events, listed, {}, s.persisted, {}, s.mails, false)
  }

  /** The calls a command makes, in the state it makes them in. */
  function CallsOf(c: Command): seq<Call> {
    match c
    case Order(call) => [call]
    case Update(calls) => calls
    case Restart(_, _, calls) => calls
  }

  function Begun(s: State, c: Command): State {
    if c.Restart? then Loaded(s, c.events, c.listed).(persisted := {}) else s
  }

  function Do(s: State, c: Command, now: int): (t: State)
    requires Table(s.events) && Legal(c)
    ensures Table(t.events)
  {
    match c
    case Order(call) => Act(s, call, now)
    case Update(calls) => VisitAll(ActAll(s, calls, now), 1, now, {})
    case Restart(events, listed, calls) => Initialize(Loaded(s, events, listed), calls, now)
  }

  datatype Timed = Timed(command: Command, now: int)

  predicate AllLegal(run: seq<Timed>) {
    forall i :: 0 <= i < |run| ==> Legal(run[i].command)
  }

  /** The first start of the server, with the calls of its first update. */
  datatype Boot = Boot(events: seq<EventData>, listed: set<nat>, calls: seq<Call>, at: int)

  /** The state after a run that begins with the first start of the server. */
  function After(boot: Boot, run: seq<Timed>): (s: State)
    requires Table(boot.events) && AllLegal(run)
    ensures Table(s.events)
  {
    if run == [] then Initialize(State(boot.events, boot.listed, {}, {}, {}, [], false), boot.calls, boot.at)
    else
      var last := run[|run| - 1];
      Do(After(boot, run[..|run| - 1]), last.command, last.now)
  }

  // ---------- One update ----------

  /** Whether the update decides event `i`: regular, and existing. */
  predicate Decides(s: State, i: nat) {
    0 < i < |s.events| && Regular(s.events[i]) && IsValid(s.events[i])
  }

  /** The mail an update sends about event `i`. */
  function Mail(s: State, i: nat, now: int, resumed: set<nat>): seq<int>
    requires Table(s.events)
  {
    if !Decides(s, i) then []
    else if CheckOneGameEvent(s.events[i], now) then
      if i in s.active || i in resumed then [] else [i]
    else if i in s.active then [Opposite(i)] else []
  }

  function Mails(s: State, i: nat, now: int, resumed: set<nat>): seq<int>
    requires Table(s.events)
    decreases |s.events| - i
  {
    if i >= |s.events| then [] else Mail(s, i, now, resumed) + Mails(s, i + 1, now, resumed)
  }

  /** What stays the same however many events a turn of the loop has behind it. */
  predicate Fixed(s: State, t: State) {
    t.events == s.events && t.listed == s.listed && t.initialised == s.initialised
  }

  /** Active and persisted go together, and an active event's own slot is up and its other one down. */
  predicate InStep(s: State) {
    && s.persisted == s.active
    && forall i :: 0 < i < |s.events| ==>
         && (Slot(|s.events|, i) in s.spawned <==> i in s.active)
         && (Slot(|s.events|, Opposite(i)) in s.spawned ==> i !in s.active)
  }

  predicate ActiveExist(s: State) {
    forall i :: i in s.active ==> IsValidEvent(s, i)
  }

  /** Exactly one of the event's two slots is up. */
  predicate Settled(s: State, i: nat) {
    (Slot(|s.events|, i) in s.spawned) != (Slot(|s.events|, Opposite(i)) in s.spawned)
  }

  lemma VisitIs(s: State, i: nat, now: int, resumed: set<nat>)
    requires 0 < i < |s.events| && Table(s.events) && ActiveExist(s)
    ensures var t := Visit(s, i, now, resumed);
      && Fixed(s, t) && ActiveExist(t)
      && t.mails == s.mails + Mail(s, i, now, resumed)
      && (forall k :: k in t.active <==> if k == i && Decides(s, i) then CheckOneGameEvent(s.events[i], now) else k in s.active)
  {
    assert s.mails + [] == s.mails;
    hide CheckOneGameEvent;
  }

  /** The update decides activity by the schedule alone, and its mails are those of the state it began in. */
  lemma {:induction false} VisitAllIs(s: State, i: nat, now: int, resumed: set<nat>)
    requires 0 < i && Table(s.events) && ActiveExist(s)
    ensures var t := VisitAll(s, i, now, resumed);
      && Fixed(s, t) && ActiveExist(t)
      && t.mails == s.mails + Mails(s, i, now, resumed)
      && (forall k :: k in t.active <==> if i <= k && Decides(s, k) then CheckOneGameEvent(s.events[k], now) else k in s.active)
    decreases |s.events| - i
  {
    hide CheckOneGameEvent, Mail;
    if i < |s.events| {
      var t := Visit(s, i, now, resumed);
      VisitIs(s, i, now, resumed);
      VisitAllIs(t, i + 1, now, resumed);
      MailsFrame(s, t, i + 1, now, resumed);
      hide Visit, Mails, Table, Decides;
      assert Mails(t, i + 1, now, resumed) == Mails(s, i + 1, now, resumed);
    } else {
      assert s.mails + [] == s.mails;
    }
  }

  /** The mails about later events do not depend on what was done about earlier ones. */
  lemma {:induction false} MailsFrame(s: State, t: State, i: nat, now: int, resumed: set<nat>)
    requires Table(s.events) && t.events == s.events
    requires forall k :: i <= k ==> (k in t.active <==> k in s.active)
    ensures Mails(t, i, now, resumed) == Mails(s, i, now, resumed)
    decreases |s.events| - i
  {
    hide CheckOneGameEvent;
    if i < |s.events| {
      MailsFrame(s, t, i + 1, now, resumed);
    }
  }

  /** The mails are about different events, in the order of their ids, from `i` on. */
  predicate Ascending(mails: seq<int>, i: nat) {
    && (forall a :: 0 <= a < |mails| ==> Number(mails[a]) >= i)
    && (forall a, b :: 0 <= a < b < |mails| ==> Number(mails[a]) < Number(mails[b]))
  }

  lemma AscendingMore(first: int, mails: seq<int>)
    requires Ascending(mails, Number(first) + 1)
    ensures Ascending([first] + mails, Number(first))
  {
  }

  lemma MailShape(s: State, i: nat, now: int, resumed: set<nat>)
    requires Table(s.events)
    ensures var m := Mail(s, i, now, resumed); m == [] || (|m| == 1 && Number(m[0]) == i)
  {
    hide CheckOneGameEvent, Table;
  }

  /** An update mails about each event at most once. */
  lemma {:induction false} MailsAscend(s: State, i: nat, now: int, resumed: set<nat>)
    requires Table(s.events)
    ensures Ascending(Mails(s, i, now, resumed), i)
    decreases |s.events| - i
  {
    if i < |s.events| {
      MailsAscend(s, i + 1, now, resumed);
      MailShape(s, i, now, resumed);
      var m, rest := Mail(s, i, now, resumed), Mails(s, i + 1, now, resumed);
      assert Mails(s, i, now, resumed) == m + rest;
      hide CheckOneGameEvent, Table, Mail, Mails, Number;
      if m == [] {
        assert m + rest == rest;
      } else {
        assert m == [m[0]];
        AscendingMore(m[0], rest);
      }
    }
  }

  function Number(mail: int): nat {
    if mail < 0 then -mail else mail
  }

  /** A start is mailed for an event found on, neither active nor resumed; a stop for one found off and active. */
  predicate MailDue(s: State, now: int, resumed: set<nat>, id: int)
    requires Table(s.events)
  {
    Decides(s, Number(id)) &&
    var on, active := CheckOneGameEvent(s.events[Number(id)], now), Number(id) in s.active;
    if id > 0 then on && !active && id !in resumed else !on && active
  }

  /** Which mails go out, exactly. */
  lemma {:induction false} MailsExactly(s: State, i: nat, now: int, resumed: set<nat>, id: int)
    requires 0 < i && Table(s.events)
    ensures id in Mails(s, i, now, resumed) <==> i <= Number(id) && MailDue(s, now, resumed, id)
    decreases |s.events| - i
  {
    hide CheckOneGameEvent, Table;
    if i < |s.events| {
      MailsExactly(s, i + 1, now, resumed, id);
    }
  }
}
