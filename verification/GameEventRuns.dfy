/** What holds of the game events after every run of commands, updates and restarts. */
module GameEventRuns {
  import opened GameEventSchedule
  import opened GameEvents

  /** The last mail about an event: `id` that it started, `-id` that it stopped, 0 for none. */
  function LastMail(mails: seq<int>, id: nat): int {
    if mails == [] then 0
    else if Number(mails[|mails| - 1]) == id then mails[|mails| - 1]
    else LastMail(mails[..|mails| - 1], id)
  }

  /** The last mail about each of these events is that it started. */
  predicate Told(mails: seq<int>, ids: set<nat>) {
    forall k :: k in ids ==> LastMail(mails, k) == k
  }

  /** What holds at any moment: active events exist, and slots and status table go with them. */
  predicate Sane(s: State) {
    Table(s.events) && ActiveExist(s) && InStep(s)
  }

  predicate Inv(s: State) {
    Sane(s) && s.initialised
  }

  /** The last mail about every active event is that it started. */
  predicate Announced(s: State) {
    Told(s.mails, s.active)
  }

  lemma LastMailMore(mails: seq<int>, mail: int, id: nat)
    ensures LastMail(mails + [mail], id) == if Number(mail) == id then mail else LastMail(mails, id)
  {
    assert (mails + [mail])[..|mails|] == mails;
  }

  lemma {:induction false} LastMailConcat(a: seq<int>, b: seq<int>, id: nat)
    requires id > 0
    ensures LastMail(a + b, id) == if LastMail(b, id) != 0 then LastMail(b, id) else LastMail(a, id)
  {
    if b == [] {
      assert a + b == a;
    } else {
      LastMailConcat(a, b[..|b| - 1], id);
      LastMailMore(a + b[..|b| - 1], b[|b| - 1], id);
      assert a + b == a + b[..|b| - 1] + [b[|b| - 1]];
    }
  }

  lemma ToldMore(mails: seq<int>, ids: set<nat>, mail: int)
    requires Told(mails, ids - {Number(mail)}) && (mail < 0 ==> Number(mail) !in ids)
    ensures Told(mails + [mail], ids)
  {
    forall k | k in ids ensures LastMail(mails + [mail], k) == k {
      LastMailMore(mails, mail, k);
    }
  }

  // ---------- Slots ----------

  /** Where an event's mates are listed gives back the event: two ids never share a slot, and the ids with a slot are those of `size` events and their opposites. */
  lemma SlotsDiffer(size: nat, a: int, b: int)
    ensures InRange(size, a) <==> -(size as int) < a < size
    ensures Slot(size, a) == Slot(size, b) <==> a == b
    ensures 0 < Number(a) < size ==> InRange(size, a) && Slot(size, a) + 1 - size == a
  {
  }

  /** Starting moves the event's slots and no other event's. */
  lemma ApplySlots(s: State, id: nat, resume: bool)
    requires InStep(s) && 0 < id < |s.events|
    ensures var t := Apply(s, id, resume);
      && InStep(t)
      && forall k :: 0 < k < |s.events| ==>
           (Slot(|s.events|, Opposite(k)) in t.spawned <==> k != id && Slot(|s.events|, Opposite(k)) in s.spawned)
  {
  }

  lemma UnApplySlots(s: State, id: nat)
    requires InStep(s) && 0 < id < |s.events|
    ensures var t := UnApply(s, id);
      && InStep(t)
      && forall k :: 0 < k < |s.events| ==>
           (Slot(|s.events|, Opposite(k)) in t.spawned <==> k == id || Slot(|s.events|, Opposite(k)) in s.spawned)
  {
  }

  // ---------- One call ----------

  lemma StartKeeps(s: State, id: nat, overwrite: bool, now: int)
    requires Sane(s)
    ensures Sane(Start(s, id, overwrite, false, now))
    ensures Announced(s) ==> Announced(Start(s, id, overwrite, false, now))
  {
    if IsValidEvent(s, id) {
      ApplySlots(s, id, false);
      if Announced(s) {
        ToldMore(s.mails, s.active + {id}, id);
      }
      hide Spawn, Unspawn, LastMail;
    }
  }

  lemma StopKeeps(s: State, id: nat, overwrite: bool, now: int)
    requires Sane(s)
    ensures Sane(Stop(s, id, overwrite, now))
    ensures Announced(s) ==> Announced(Stop(s, id, overwrite, now))
  {
    if IsValidEvent(s, id) {
      UnApplySlots(s, id);
      if Announced(s) {
        ToldMore(s.mails, s.active - {id}, Opposite(id));
      }
      hide Spawn, Unspawn, LastMail;
    }
  }

  lemma EnableKeeps(s: State, id: nat, on: bool, now: int)
    requires Sane(s)
    ensures Sane(Enable(s, id, on, now))
    ensures Announced(s) ==> Announced(Enable(s, id, on, now))
  {
    if IsValidEvent(s, id) {
      hide LastMail;
      StopKeeps(s.(events := s.events[id := s.events[id].(disabled := !on)]), id, true, now);
    }
  }

  lemma ActKeeps(s: State, c: Call, now: int)
    requires Sane(s)
    ensures Sane(Act(s, c, now))
    ensures Announced(s) ==> Announced(Act(s, c, now))
  {
    hide LastMail, Start, Stop, Enable, InStep;
    match c
    case StartEvent(id, overwrite) => StartKeeps(s, id, overwrite, now);
    case StopEvent(id, overwrite) => StopKeeps(s, id, overwrite, now);
    case EnableEvent(id, on) => EnableKeeps(s, id, on, now);
  }

  lemma {:induction false} ActAllKeeps(s: State, calls: seq<Call>, now: int)
    requires Sane(s)
    ensures Sane(ActAll(s, calls, now))
    ensures Announced(s) ==> Announced(ActAll(s, calls, now))
    decreases |calls|
  {
    hide Sane, Announced, Act;
    assert Table(s.events) by { SaneTable(s); }
    if calls != [] {
      ActKeeps(s, calls[0], now);
      ActAllKeeps(Act(s, calls[0], now), calls[1..], now);
    }
  }

  lemma SaneTable(s: State)
    requires Sane(s)
    ensures Table(s.events)
  {
    hide Table, InStep;
  }

  /** One call sends at most one mail, which is about its event. */
  lemma ActMails(s: State, c: Call, now: int)
    requires Table(s.events)
    ensures var t := Act(s, c, now); t.mails == s.mails || t.mails == s.mails + [c.id as int] || t.mails == s.mails + [Opposite(c.id)]
    ensures |Act(s, c, now).events| == |s.events|
    ensures forall k: nat :: k != c.id ==> (k in Act(s, c, now).active <==> k in s.active)
    ensures forall k: nat :: k != c.id && k < |s.events| ==> Act(s, c, now).events[k] == s.events[k]
    ensures forall k: nat :: IsValidEvent(Act(s, c, now), k) <==> IsValidEvent(s, k)
  {
    hide Table;
  }

  lemma {:induction false} ActAllMails(s: State, calls: seq<Call>, now: int)
    requires Table(s.events)
    ensures s.mails <= ActAll(s, calls, now).mails && |ActAll(s, calls, now).events| == |s.events|
    ensures forall k: nat :: IsValidEvent(ActAll(s, calls, now), k) <==> IsValidEvent(s, k)
    decreases |calls|
  {
    hide Act, IsValidEvent, Table;
    if calls != [] {
      ActMails(s, calls[0], now);
      ActAllMails(Act(s, calls[0], now), calls[1..], now);
    }
  }

  // ---------- The update's loop ----------

  lemma VisitKeeps(s: State, i: nat, now: int, resumed: set<nat>)
    requires Sane(s) && 0 < i < |s.events|
    ensures Sane(Visit(s, i, now, resumed))
  {
    VisitIs(s, i, now, resumed);
    ApplySlots(s, i, i in resumed);
    UnApplySlots(s, i);
    hide CheckOneGameEvent, Spawn, Unspawn;
  }

  lemma {:induction false} VisitAllKeeps(s: State, i: nat, now: int, resumed: set<nat>)
    requires Sane(s) && 0 < i
    ensures Sane(VisitAll(s, i, now, resumed))
    decreases |s.events| - i
  {
    if i < |s.events| {
      VisitKeeps(s, i, now, resumed);
      hide Sane, Visit;
      VisitAllKeeps(Visit(s, i, now, resumed), i + 1, now, resumed);
    }
  }

  /** The loop's last mail about an event is the one of its own turn. */
  lemma {:induction false} LastOfLoop(s: State, i: nat, now: int, resumed: set<nat>, k: nat)
    requires Table(s.events) && k > 0 && i > 0
    ensures LastMail(Mails(s, i, now, resumed), k)
         == if i <= k < |s.events| && Mail(s, k, now, resumed) != [] then Mail(s, k, now, resumed)[0] else 0
    decreases |s.events| - i
  {
    hide CheckOneGameEvent, Table, Mail, LastMail;
    if i < |s.events| {
      LastOfLoop(s, i + 1, now, resumed, k);
      MailShape(s, i, now, resumed);
      LastMailConcat(Mail(s, i, now, resumed), Mails(s, i + 1, now, resumed), k);
      OneMail(Mail(s, i, now, resumed), k);
    } else {
      NoMail(k);
    }
  }

  lemma NoMail(k: nat)
    ensures LastMail([], k) == 0
  {
  }

  lemma OneMail(m: seq<int>, k: nat)
    requires |m| <= 1
    ensures LastMail(m, k) == if m != [] && Number(m[0]) == k then m[0] else 0
  {
    if m != [] {
      assert m == [] + [m[0]];
      LastMailMore([], m[0], k);
    }
  }

  /** An event the loop resumes in silence, although the last mail about it is not its start. */
  ghost predicate Hushed(u: State, now: int, resumed: set<nat>) {
    Table(u.events) && exists k :: HushedAt(u, now, resumed, k)
  }

  predicate HushedAt(u: State, now: int, resumed: set<nat>, k: nat)
    requires Table(u.events)
  {
    Decides(u, k) && CheckOneGameEvent(u.events[k], now) && k in resumed && k !in u.active && LastMail(u.mails, k) != k
  }

  lemma NotZero(s: State, k: nat)
    requires Table(s.events) && IsValidEvent(s, k)
    ensures k > 0
  {
  }

  lemma LoopAnnounces(u: State, now: int, resumed: set<nat>)
    requires Sane(u) && Announced(u)
    ensures Announced(VisitAll(u, 1, now, resumed)) <==> !Hushed(u, now, resumed)
  {
    hide CheckOneGameEvent, VisitAll, Mails, LastMail, InStep, Table;
    var t := VisitAll(u, 1, now, resumed);
    VisitAllIs(u, 1, now, resumed);
    forall k | k in t.active ensures LastMail(t.mails, k) == k <==> !HushedAt(u, now, resumed, k) {
      NotZero(t, k);
      LastMailConcat(u.mails, Mails(u, 1, now, resumed), k);
      LastOfLoop(u, 1, now, resumed, k);
    }
    forall k | HushedAt(u, now, resumed, k) ensures k in t.active {
    }
  }

  // ---------- One command ----------

  lemma BegunSane(s: State, c: Command)
    requires Inv(s) && Legal(c)
    ensures Sane(Begun(s, c)) && (Announced(s) ==> Announced(Begun(s, c)))
  {
    hide LastMail;
  }

  lemma FirstStateSane(boot: Boot)
    requires Table(boot.events)
    ensures var none := State(boot.events, boot.listed, {}, {}, {}, [], false); Sane(none) && Announced(none)
  {
  }

  lemma DoKeeps(s: State, c: Command, now: int)
    requires Inv(s) && Legal(c)
    ensures Inv(Do(s, c, now))
  {
    hide Visit, VisitAll, LastMail, Act, ActAll, InStep, Table, ActiveExist;
    BegunSane(s, c);
    var u := ActAll(Begun(s, c), CallsOf(c), now);
    ActAllKeeps(Begun(s, c), CallsOf(c), now);
    match c
    case Order(call) => ActKeeps(s, call, now);
    case Update(calls) =>
      VisitAllKeeps(u, 1, now, {});
      VisitAllIs(u, 1, now, {});
    case Restart(events, listed, calls) =>
      VisitAllKeeps(u, 1, now, s.persisted);
      Initialised(VisitAll(u, 1, now, s.persisted));
  }

  lemma Initialised(s: State)
    requires Sane(s)
    ensures Inv(s.(initialised := true)) && (Announced(s) <==> Announced(s.(initialised := true)))
  {
    hide LastMail;
  }

  /** The last mail about every active event stays its start, unless a restart resumes in silence what its calls had stopped. */
  lemma CommandAnnounces(s: State, c: Command, now: int)
    requires Inv(s) && Legal(c) && Announced(s)
    ensures Announced(Do(s, c, now)) <==> !(c.Restart? && Hushed(ActAll(Begun(s, c), CallsOf(c), now), now, s.active))
  {
    hide Visit, VisitAll, LastMail, Act, ActAll, InStep, Table, ActiveExist, CheckOneGameEvent;
    BegunSane(s, c);
    PersistedActive(s);
    var u := ActAll(Begun(s, c), CallsOf(c), now);
    ActAllKeeps(Begun(s, c), CallsOf(c), now);
    match c
    case Order(call) => ActKeeps(s, call, now);
    case Update(calls) => LoopAnnounces(u, now, {});
    case Restart(events, listed, calls) =>
      LoopAnnounces(u, now, s.persisted);
      VisitAllKeeps(u, 1, now, s.persisted);
      Initialised(VisitAll(u, 1, now, s.persisted));
  }

  lemma PersistedActive(s: State)
    requires Sane(s)
    ensures s.persisted == s.active
  {
  }

  // ---------- Every run ----------

  /**
   After every run the status table holds the active set, an active event's own slot is up and
   its negative one down, and an inactive event's own slot is down.
   */
  lemma {:induction false} RunKeeps(boot: Boot, run: seq<Timed>)
    requires Table(boot.events) && AllLegal(run)
    ensures Inv(After(boot, run))
  {
    hide Do, Inv, Sane, Initialize;
    if run == [] {
      FirstStart(boot);
    } else {
      RunKeeps(boot, run[..|run| - 1]);
      var last := run[|run| - 1];
      DoKeeps(After(boot, run[..|run| - 1]), last.command, last.now);
    }
  }

  lemma FirstStart(boot: Boot)
    requires Table(boot.events)
    ensures Inv(After(boot, [])) && Announced(After(boot, []))
  {
    hide VisitAll, ActAll, Sane, Announced, Table;
    var none := State(boot.events, boot.listed, {}, {}, {}, [], false);
    FirstStateSane(boot);
    assert none.(active := {}, persisted := {}) == none;
    var u := ActAll(none, boot.calls, boot.at);
    ActAllKeeps(none, boot.calls, boot.at);
    LoopAnnounces(u, boot.at, {});
    VisitAllKeeps(u, 1, boot.at, {});
    Initialised(VisitAll(u, 1, boot.at, {}));
  }

  /** No restart of the run resumes in silence what its calls had stopped. */
  ghost predicate NeverHushed(boot: Boot, run: seq<Timed>)
    requires Table(boot.events) && AllLegal(run)
  {
    run == [] ||
    (NeverHushed(boot, run[..|run| - 1]) &&
     var s, last := After(boot, run[..|run| - 1]), run[|run| - 1];
     last.command.Restart? ==>
       !Hushed(ActAll(Begun(s, last.command), CallsOf(last.command), last.now), last.now, s.active))
  }

  /** In such runs the last mail about an active event is always that it started. */
  lemma {:induction false} RunAnnounces(boot: Boot, run: seq<Timed>)
    requires Table(boot.events) && AllLegal(run) && NeverHushed(boot, run)
    ensures Announced(After(boot, run))
  {
    hide Do, Inv, Sane, Announced, Hushed, Initialize, ActAll;
    if run == [] {
      FirstStart(boot);
    } else {
      var front, last := run[..|run| - 1], run[|run| - 1];
      RunKeeps(boot, front);
      RunAnnounces(boot, front);
      CommandAnnounces(After(boot, front), last.command, last.now);
    }
  }

  // ---------- Updates ----------

  /** What an update mails after its calls, exactly, and in what order. */
  lemma UpdateMails(s: State, calls: seq<Call>, now: int)
    requires Inv(s)
    ensures var u, t := ActAll(s, calls, now), Do(s, Update(calls), now);
      && s.mails <= u.mails <= t.mails
      && Ascending(t.mails[|u.mails|..], 1)
      && forall id: int :: id in t.mails[|u.mails|..] <==> MailDue(u, now, {}, id)
  {
    hide ActAll, InStep, ActiveExist;
    ActAllMails(s, calls, now);
    ActAllKeeps(s, calls, now);
    LoopMails(ActAll(s, calls, now), now, {});
  }

  lemma LoopMails(u: State, now: int, resumed: set<nat>)
    requires Sane(u)
    ensures var t := VisitAll(u, 1, now, resumed);
      && u.mails <= t.mails && Ascending(t.mails[|u.mails|..], 1)
      && forall id: int :: id in t.mails[|u.mails|..] <==> MailDue(u, now, resumed, id)
  {
    hide VisitAll, Mails, InStep, Table, MailDue, Ascending;
    VisitAllIs(u, 1, now, resumed);
    MailsAscend(u, 1, now, resumed);
    assert VisitAll(u, 1, now, resumed).mails[|u.mails|..] == Mails(u, 1, now, resumed);
    forall id: int ensures id in Mails(u, 1, now, resumed) <==> MailDue(u, now, resumed, id) {
      MailsExactly(u, 1, now, resumed, id);
      DueExists(u, now, resumed, id);
    }
  }

  lemma DueExists(s: State, now: int, resumed: set<nat>, id: int)
    requires Table(s.events)
    ensures MailDue(s, now, resumed, id) ==> Number(id) >= 1
  {
  }

  /**
   A restart turns on what the schedule says and leaves other events as its calls left them. Its
   loop mails starts of what it finds on, unless that is active already or was when the server went
   down, and stops of what the calls started and it finds off.
   */
  lemma RestartResumes(s: State, c: Command, now: int)
    requires Inv(s) && Legal(c) && c.Restart?
    ensures var u, t := ActAll(Begun(s, c), c.calls, now), Do(s, c, now);
      && t.events == u.events && s.mails <= u.mails <= t.mails
      && (forall id: nat :: id in t.active <==> if Decides(u, id) then CheckOneGameEvent(u.events[id], now) else id in u.active)
      && Ascending(t.mails[|u.mails|..], 1)
      && forall id: int :: id in t.mails[|u.mails|..] <==> MailDue(u, now, s.active, id)
  {
    hide CheckOneGameEvent, VisitAll, ActAll, InStep, Ascending, MailDue, ActiveExist;
    PersistedActive(s);
    BegunSane(s, c);
    var u := ActAll(Begun(s, c), c.calls, now);
    ActAllMails(Begun(s, c), c.calls, now);
    ActAllKeeps(Begun(s, c), c.calls, now);
    LoopMails(u, now, s.active);
    VisitAllIs(u, 1, now, s.active);
  }

  predicate Names(calls: seq<Call>, id: nat) {
    exists i :: 0 <= i < |calls| && calls[i].id == id
  }

  /** What no call names is as it was, and no mail is about it. */
  lemma {:induction false} UnnamedSame(s: State, calls: seq<Call>, now: int, id: nat)
    requires Table(s.events) && !Names(calls, id)
    ensures var u := ActAll(s, calls, now);
      && (id in u.active <==> id in s.active) && |u.events| == |s.events| && (id < |s.events| ==> u.events[id] == s.events[id])
      && s.mails <= u.mails && forall m :: m in u.mails[|s.mails|..] ==> Number(m) != id
    decreases |calls|
  {
    hide Act, Table, IsValidEvent;
    if calls != [] {
      var t := Act(s, calls[0], now);
      assert calls[0].id != id;
      ActMails(s, calls[0], now);
      forall i | 0 <= i < |calls| - 1 ensures calls[1..][i].id != id {
        assert calls[1..][i] == calls[i + 1];
      }
      UnnamedSame(t, calls[1..], now, id);
      var u := ActAll(t, calls[1..], now);
      assert u.mails[|s.mails|..] == t.mails[|s.mails|..] + u.mails[|t.mails|..];
    }
  }

  /** An event that no call of the restart names is on by the schedule alone, and mailed only as started, if it was off before. */
  lemma RestartResumesOthers(s: State, c: Command, now: int, id: nat)
    requires Inv(s) && Legal(c) && c.Restart? && !Names(c.calls, id)
    ensures var t := Do(s, c, now);
      && s.mails <= t.mails
      && (id in t.active <==> Decides(Begun(s, c), id) && CheckOneGameEvent(c.events[id], now))
      && (id as int in t.mails[|s.mails|..] <==> id in t.active && id !in s.active)
      && (id > 0 ==> Opposite(id) !in t.mails[|s.mails|..])
  {
    hide CheckOneGameEvent, Do, ActAll, InStep, Ascending, ActiveExist, Names;
    RestartResumes(s, c, now);
    UnnamedSame(Begun(s, c), c.calls, now, id);
    var u, t := ActAll(Begun(s, c), c.calls, now), Do(s, c, now);
    assert t.mails[|s.mails|..] == u.mails[|s.mails|..] + t.mails[|u.mails|..];
  }

  /** From an update until the second the next one is due, the active set follows the schedule. */
  lemma OnSchedule(s: State, calls: seq<Call>, now: int, wanted: nat, k: nat, at: int)
    requires Inv(s) && Decides(ActAll(s, calls, now), k)
    requires var events := ActAll(s, calls, now).events;
      && (forall i :: 1 <= i < |events| && Regular(events[i]) ==> Usable(events[i]))
      && now <= at < now + Delay(events, now, wanted) / 1000 - 1
    ensures k in Do(s, Update(calls), now).active <==> CheckOneGameEvent(ActAll(s, calls, now).events[k], at)
  {
    hide VisitAll, ActAll, InStep, CheckOneGameEvent;
    ActAllKeeps(s, calls, now);
    var u := ActAll(s, calls, now);
    VisitAllIs(u, 1, now, {});
    var sofar := if wanted < MAX_CHECK_DELAY then wanted else MAX_CHECK_DELAY;
    assert Delay(u.events, now, wanted) / 1000 - 1 == LeastDelay(u.events, now, 1, sofar);
    NothingMissed(u.events, now, sofar, k, at);
  }

  /** What an update, or a restart, makes of the events it decides is what the calendar says of them. */
  lemma FollowsCalendar(s: State, c: Command, now: int, k: nat)
    requires Inv(s) && Legal(c) && !c.Order?
    requires var events := ActAll(Begun(s, c), CallsOf(c), now).events;
      0 < k < |events| && !events[k].hardcoded && !events[k].disabled && events[k].length > 0
    ensures k in Do(s, c, now).active <==> Calendar(ActAll(Begun(s, c), CallsOf(c), now).events[k], now)
  {
    hide VisitAll, ActAll, InStep, CheckOneGameEvent, Calendar, Announced;
    BegunSane(s, c);
    ActAllKeeps(Begun(s, c), CallsOf(c), now);
    var u := ActAll(Begun(s, c), CallsOf(c), now);
    VisitAllIs(u, 1, now, if c.Update? then {} else s.persisted);
    OnExactly(u.events[k], now);
  }

  // ---------- Which events have one slot up ----------

  /** Whether the event's negative slot is up after its turn of the loop. */
  predicate DownAfter(s: State, k: nat, now: int)
    requires k < |s.events| && Table(s.events)
  {
    var down := Slot(|s.events|, Opposite(k)) in s.spawned;
    if !Regular(s.events[k]) then down
    else if CheckOneGameEvent(s.events[k], now) then !IsValid(s.events[k]) && down
    else k in s.active || !s.initialised || down
  }

  lemma VisitDown(s: State, i: nat, now: int, resumed: set<nat>)
    requires Table(s.events) && ActiveExist(s) && InStep(s) && 0 < i < |s.events|
    ensures var t := Visit(s, i, now, resumed);
      && InStep(t)
      && forall k :: 0 < k < |s.events| ==>
           (Slot(|s.events|, Opposite(k)) in t.spawned <==>
             if k == i then DownAfter(s, i, now) else Slot(|s.events|, Opposite(k)) in s.spawned)
  {
    ApplySlots(s, i, i in resumed);
    UnApplySlots(s, i);
    hide CheckOneGameEvent, Unspawn, Apply, UnApply;
  }

  lemma {:induction false} VisitAllDown(s: State, i: nat, now: int, resumed: set<nat>)
    requires Table(s.events) && ActiveExist(s) && InStep(s) && 0 < i
    ensures var t := VisitAll(s, i, now, resumed);
      && InStep(t)
      && forall k :: 0 < k < |s.events| ==>
           (Slot(|s.events|, Opposite(k)) in t.spawned <==>
             if i <= k then DownAfter(s, k, now) else Slot(|s.events|, Opposite(k)) in s.spawned)
    decreases |s.events| - i
  {
    hide CheckOneGameEvent, Visit;
    if i < |s.events| {
      VisitIs(s, i, now, resumed);
      VisitDown(s, i, now, resumed);
      hide InStep, ActiveExist, Slot;
      VisitAllDown(Visit(s, i, now, resumed), i + 1, now, resumed);
    }
  }

  /** One of the calls starts or stops the event. */
  predicate Moves(calls: seq<Call>, k: nat) {
    exists i :: 0 <= i < |calls| && !calls[i].EnableEvent? && calls[i].id == k
  }

  lemma ActSettles(s: State, c: Call, now: int, k: nat)
    requires Sane(s) && 0 < k < |s.events|
    ensures Settled(Act(s, c, now), k) <==> Settled(s, k) || (!c.EnableEvent? && c.id == k && IsValidEvent(s, k))
  {
    match c
    case StartEvent(id, overwrite) =>
      if IsValidEvent(s, id) { ApplySlots(s, id, false); }
    case StopEvent(id, overwrite) =>
      if IsValidEvent(s, id) { UnApplySlots(s, id); }
    case EnableEvent(id, on) =>
      if IsValidEvent(s, id) { UnApplySlots(s.(events := s.events[id := s.events[id].(disabled := !on)]), id); }
  }

  lemma {:induction false} CallsSettle(s: State, calls: seq<Call>, now: int, k: nat)
    requires Sane(s) && 0 < k < |s.events|
    ensures Settled(ActAll(s, calls, now), k) <==> Settled(s, k) || (Moves(calls, k) && IsValidEvent(s, k))
    decreases |calls|
  {
    hide Act, Settled, Table, InStep, ActiveExist, IsValidEvent;
    if calls != [] {
      ActSettles(s, calls[0], now, k);
      ActMails(s, calls[0], now);
      ActKeeps(s, calls[0], now);
      CallsSettle(Act(s, calls[0], now), calls[1..], now, k);
      MovesFirst(calls, k);
    }
  }

  lemma MovesFirst(calls: seq<Call>, k: nat)
    requires calls != []
    ensures Moves(calls, k) <==> (!calls[0].EnableEvent? && calls[0].id == k) || Moves(calls[1..], k)
  {
    assert forall i :: 0 <= i < |calls| - 1 ==> calls[1..][i] == calls[i + 1];
    if i :| 0 <= i < |calls| && !calls[i].EnableEvent? && calls[i].id == k {
      assert i > 0 ==> calls[1..][i - 1] == calls[i];
    }
  }

  lemma LoopSettles(u: State, now: int, resumed: set<nat>, k: nat)
    requires Sane(u) && 0 < k < |u.events|
    ensures Settled(VisitAll(u, 1, now, resumed), k) <==>
      || Settled(u, k) || (Decides(u, k) && CheckOneGameEvent(u.events[k], now))
      || (!u.initialised && Regular(u.events[k]) && !CheckOneGameEvent(u.events[k], now))
  {
    hide CheckOneGameEvent, VisitAll, Visit, Mails;
    VisitAllIs(u, 1, now, resumed);
    VisitAllDown(u, 1, now, resumed);
  }

  /**
   After a start of the server an event has exactly one slot up just when a call of its first update
   starts or stops it, or it is regular and either existing or off.
   */
  lemma RestartSettles(s: State, c: Command, now: int, k: nat)
    requires Inv(s) && Legal(c) && c.Restart? && 0 < k < |c.events|
    ensures |ActAll(Begun(s, c), c.calls, now).events| == |c.events|
    ensures var e := ActAll(Begun(s, c), c.calls, now).events[k];
      Settled(Do(s, c, now), k) <==>
        (Moves(c.calls, k) && IsValid(c.events[k])) || (Regular(e) && (IsValid(e) || !CheckOneGameEvent(e, now)))
  {
    hide CheckOneGameEvent, VisitAll, ActAll, InStep, ActiveExist, Moves;
    BegunSane(s, c);
    var b, u := Begun(s, c), ActAll(Begun(s, c), c.calls, now);
    ActAllMails(b, c.calls, now);
    ActAllKeeps(b, c.calls, now);
    CallsSettle(b, c.calls, now, k);
    LoopSettles(u, now, s.persisted, k);
    assert !Settled(b, k);
  }

  /**
   Between restarts an event has exactly one slot up just when it had, or it exists and a call
   starts or stops it, or an update finds it on.
   */
  lemma SettledExactly(s: State, c: Command, now: int, k: nat)
    requires Inv(s) && Legal(c) && !c.Restart? && 0 < k < |s.events|
    ensures var u := ActAll(s, CallsOf(c), now);
      Settled(Do(s, c, now), k) <==>
        || Settled(s, k) || (Moves(CallsOf(c), k) && IsValidEvent(s, k))
        || (c.Update? && Decides(u, k) && CheckOneGameEvent(u.events[k], now))
  {
    hide CheckOneGameEvent, VisitAll, InStep, ActiveExist, Moves, Act, Settled;
    var u := ActAll(s, CallsOf(c), now);
    ActAllMails(s, CallsOf(c), now);
    ActAllKeeps(s, CallsOf(c), now);
    CallsSettle(s, CallsOf(c), now, k);
    match c
    case Order(call) => assert [call][1..] == [] && u == Act(s, call, now);
    case Update(calls) => LoopSettles(u, now, {}, k);
  }

  /**
   An event disabled when the server starts, enabled later and found out of its window has
   neither of its slots up, though an event enabled all along has its negative one.
   */
  lemma EnabledLaterHasNoSlot(events: seq<EventData>, at: int, now: int)
    requires Table(events) && |events| == 2 && IsValid(events[1]) && events[1].disabled && !events[1].hardcoded
    requires !CheckOneGameEvent(events[1].(disabled := false), now)
    ensures var s := After(Boot(events, {}, [], at), [Timed(Order(EnableEvent(1, true)), now), Timed(Update([]), now)]);
      |s.events| == 2 && Regular(s.events[1]) && 1 !in s.active && !Settled(s, 1)
  {
    var boot := Boot(events, {}, [], at);
    var first, second := Timed(Order(EnableEvent(1, true)), now), Timed(Update([]), now);
    var none := State(events, {}, {}, {}, {}, [], false);
    assert VisitAll(none, 1, at, {}) == VisitAll(none, 2, at, {}) == none;
    assert After(boot, []) == none.(initialised := true);
    assert [first, second][..1] == [first] && [first][..0] == [];
    var enabled := none.(initialised := true, events := events[1 := events[1].(disabled := false)]);
    assert After(boot, [first]) == enabled;
    assert VisitAll(enabled, 1, now, {}) == VisitAll(enabled, 2, now, {}) == enabled;
  }

  /** A restart whose calls stop an event that was on resumes it in silence: the last mail says it stopped. */
  lemma StoppedAndResumed(events: seq<EventData>, at: int, now: int)
    requires Table(events) && |events| == 2 && IsValid(events[1]) && Regular(events[1])
    requires CheckOneGameEvent(events[1], at) && CheckOneGameEvent(events[1], now)
    ensures var s := After(Boot(events, {}, [], at), [Timed(Restart(events, {}, [StopEvent(1, false)]), now)]);
      1 in s.active && s.mails == [1, -1] && !Announced(s)
  {
    var boot, c := Boot(events, {}, [], at), Restart(events, {}, [StopEvent(1, false)]);
    var none := State(events, {}, {}, {}, {}, [], false);
    assert After(boot, []) == Start(none, 1, false, false, at).(initialised := true) by {
      assert VisitAll(none, 1, at, {}) == VisitAll(Visit(none, 1, at, {}), 2, at, {}) == Visit(none, 1, at, {});
    }
    var s := After(boot, []);
    assert s.mails == [1] && s.persisted == {1};
    assert [Timed(c, now)][..0] == [] && c.calls[1..] == [];
    var u := ActAll(Begun(s, c), c.calls, now);
    assert u == Stop(Begun(s, c), 1, false, now) && u.mails == [1] + [-1];
    assert VisitAll(u, 1, now, {1}) == VisitAll(Visit(u, 1, now, {1}), 2, now, {1}) == Start(u, 1, false, true, now);
    LastMailMore([1], -1, 1);
  }

  // ---------- Mails of one command ----------

  predicate Starts(calls: seq<Call>, id: nat) {
    exists i :: 0 <= i < |calls| && calls[i].StartEvent? && calls[i].id == id
  }

  lemma {:induction false} CallsMail(s: State, calls: seq<Call>, now: int, id: nat)
    requires Table(s.events) && id > 0
    ensures var u := ActAll(s, calls, now);
      s.mails <= u.mails && (id as int in u.mails[|s.mails|..] <==> Starts(calls, id) && IsValidEvent(s, id))
    decreases |calls|
  {
    hide Table, IsValidEvent, Act;
    if calls != [] {
      var t := Act(s, calls[0], now);
      ActMails(s, calls[0], now);
      OneCallMails(s, calls[0], now, id);
      CallsMail(t, calls[1..], now, id);
      StartsFirst(calls, id);
      var u := ActAll(t, calls[1..], now);
      assert u.mails[|s.mails|..] == t.mails[|s.mails|..] + u.mails[|t.mails|..];
    }
  }

  lemma OneCallMails(s: State, c: Call, now: int, id: nat)
    requires Table(s.events) && id > 0
    ensures s.mails <= Act(s, c, now).mails
    ensures id as int in Act(s, c, now).mails[|s.mails|..] <==> c.StartEvent? && c.id == id && IsValidEvent(s, id)
  {
  }

  lemma StartsFirst(calls: seq<Call>, id: nat)
    requires calls != []
    ensures Starts(calls, id) <==> (calls[0].StartEvent? && calls[0].id == id) || Starts(calls[1..], id)
  {
    assert forall i :: 0 <= i < |calls| - 1 ==> calls[1..][i] == calls[i + 1];
    if i :| 0 <= i < |calls| && calls[i].StartEvent? && calls[i].id == id {
      assert i > 0 ==> calls[1..][i - 1] == calls[i];
    }
  }

  /**
   An active event is mailed as started once more just when a call starts it, or the calls of an
   update stop it and the update finds it on; a restart by itself mails nothing about it.
   */
  lemma StartedAgain(s: State, id: nat, c: Command, now: int)
    requires Inv(s) && id in s.active && Legal(c)
    ensures var u, t := ActAll(Begun(s, c), CallsOf(c), now), Do(s, c, now);
      && s.mails <= t.mails
      && (id as int in t.mails[|s.mails|..] <==>
            || (Starts(CallsOf(c), id) && IsValidEvent(Begun(s, c), id))
            || (c.Update? && id !in u.active && Decides(u, id) && CheckOneGameEvent(u.events[id], now)))
  {
    hide CheckOneGameEvent, VisitAll, InStep, Starts, Act, Announced;
    NotZero(s, id);
    PersistedActive(s);
    BegunSane(s, c);
    var b, u, t := Begun(s, c), ActAll(Begun(s, c), CallsOf(c), now), Do(s, c, now);
    ActAllKeeps(b, CallsOf(c), now);
    CallsMail(b, CallsOf(c), now, id);
    match c
    case Order(call) =>
      assert [call][1..] == [] && u == t;
    case _ =>
      LoopMails(u, now, if c.Restart? then s.active else {});
      assert t.mails[|s.mails|..] == u.mails[|s.mails|..] + t.mails[|u.mails|..];
  }
}
