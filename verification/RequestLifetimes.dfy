/**
 How long requests live: they are deleted a minute after their handlers, while the worker that
 sent them forgets them only when its pass comes to its cleaning.
 */
module RequestLifetimes {
  import opened Wrappers
  import opened RequestQueue
  import opened RequestRuns
  import opened Sequences

  const LIFETIME := 60

  // ---------- What else every run keeps ----------

  /** A worker holds what it has sent until its pass is cleaned up. */
  predicate LivesAt(s: State, r: Request)
    requires |s.workers| > 0
  {
    var w := Route(r.endpoint, |s.workers|);
    r in s.ran ==> (r in QueueOf(s.workers[w].requestsIn, r.endpoint) <==> StillInPass(s.log, r, w))
  }

  ghost predicate Lives(s: State)
    requires |s.workers| > 0
  {
    forall r {:trigger LivesAt(s, r)} :: LivesAt(s, r)
  }

  /** A deletion is set for a minute after the request's handler. */
  predicate MinuteAfter(log: seq<Event>, d: Deletion) {
    HandledAt(log, d.req).Some? && HandledAt(log, d.req).value + LIFETIME == d.due
  }

  /** The handler was called a minute ago or more. */
  predicate Expired(s: State, r: Request) {
    HandledAt(s.log, r).Some? && HandledAt(s.log, r).value + LIFETIME <= s.clock
  }

  predicate Sorted(ds: seq<Deletion>) {
    forall i, j :: 0 <= i < j < |ds| ==> ds[i].due <= ds[j].due
  }

  /** Deletions wait in order, and only requests whose minute is over have been deleted. */
  ghost predicate Ages(s: State) {
    && Sorted(s.toDelete)
    && (forall i :: 0 <= i < |s.toDelete| ==> MinuteAfter(s.log, s.toDelete[i]))
    && (forall r :: r in s.deleted ==> Expired(s, r))
    && (forall r :: HandledAt(s.log, r).Some? ==> r in s.handled)
  }

  ghost predicate LifeInv(s: State) {
    Inv(s) && Lives(s) && Ages(s)
  }

  // ---------- Requests of one endpoint ----------

  lemma HandledOnce(s: State)
    requires Inv(s)
    ensures Distinct(s.handled + s.responsesOut)
    ensures forall r :: r in s.handled + s.responsesOut ==> r in s.ran && r in s.completed
  {
    var all := s.handled + s.responsesOut;
    forall e ensures Distinct(Of(all, e)) && forall r :: r in Of(all, e) ==> r in Of(s.ran, e) && r in s.completed {
      ViewAt(s, e);
      OutIsRan(s, e);
    }
    forall r | r in all ensures r in s.ran && r in s.completed {
      OfIndices(all, r.endpoint);
      OfIndices(s.ran, r.endpoint);
    }
    DistinctParts(all);
  }

  lemma OutIsRan(s: State, e: Endpoint)
    requires |s.workers| > 0 && ViewOk(ViewOf(s, e), s.completed, e) && Distinct(s.posted)
    ensures var out := Of(s.handled + s.responsesOut, e);
      Distinct(out) && forall r :: r in out ==> r in Of(s.ran, e) && r in s.completed
  {
    hide HashFrom, Of, QueueOf, LastReply;
    OfIndices(s.posted, e);
    var v := ViewOf(s, e);
    assert v.out <= v.posted;
  }

  // ---------- What a worker holds ----------

  /** Of its endpoint's requests a worker holds those to be sent; at rest it holds no others. */
  lemma HeldInView(v: View, done: set<Request>, e: Endpoint, r: Request)
    requires ViewOk(v, done, e) && Distinct(v.posted)
    ensures r in v.posted && r !in v.ran ==> r in v.held
    ensures v.stage.AtRest? && r in v.ran ==> r !in v.held
    ensures r in v.held ==> r in v.posted
    ensures v.copy != [] ==> v.copy[0] in v.held && v.copy[0] !in v.ran
    ensures v.stage.OnWire? ==> v.stage.req !in v.out
  {
    hide Done;
    var n, k := |v.posted|, |v.posted| - |v.held|;
    assert forall i :: 0 <= i < |v.held| ==> v.held[i] == v.posted[k + i];
    assert forall i :: 0 <= i < |v.ran| ==> v.ran[i] == v.posted[i];
    forall i | 0 <= i < n ensures v.posted[i] in v.ran || v.posted[i] in v.held {
      if i < |v.ran| {
        assert v.ran[i] == v.posted[i];
      } else {
        assert v.held[i - k] == v.posted[i];
      }
    }
    if v.copy != [] {
      assert v.copy[0] == v.posted[|v.ran|];
      assert v.held[|v.ran| - k] == v.copy[0];
    }
  }

  /** A worker holds a request just when it is in the queue of its endpoint, and of its own. */
  lemma HeldIn(s: State, r: Request, w: nat)
    requires Inv(s) && w < |s.workers|
    ensures r in HeldBy(s.workers[w].requestsIn)
       <==> w == Route(r.endpoint, |s.workers|) && r in QueueOf(s.workers[w].requestsIn, r.endpoint)
  {
    hide HashFrom, Of, LastReply, QueueOf, ViewOk, Views;
    var lanes := s.workers[w].requestsIn;
    if r in HeldBy(lanes) {
      var l :| l in lanes && r in l.queue;
      var i :| 0 <= i < |lanes| && lanes[i] == l;
      QueueOfAt(lanes, i);
      assert HasLane(lanes, l.endpoint);
      QueuedIsPosted(s, l.endpoint, r);
    }
    if r in QueueOf(lanes, r.endpoint) {
      if !HasLane(lanes, r.endpoint) {
        QueueOfAbsent(lanes, r.endpoint);
      }
      var i :| 0 <= i < |lanes| && lanes[i].endpoint == r.endpoint;
      QueueOfAt(lanes, i);
      assert lanes[i] in lanes;
    }
  }

  lemma QueuedIsPosted(s: State, e: Endpoint, r: Request)
    requires Inv(s) && r in QueueOf(s.workers[Route(e, |s.workers|)].requestsIn, e)
    ensures r.endpoint == e && r in s.posted
  {
    hide HashFrom, Of, LastReply, QueueOf, ViewOk, Views;
    ViewAt(s, e);
    OfIndices(s.posted, e);
    HeldInView(ViewOf(s, e), s.completed, e, r);
  }

  // ---------- Each step keeps it ----------

  lemma HandledAtAppend(log: seq<Event>, ev: Event, r: Request)
    ensures HandledAt(log + [ev], r) == if ev.Handled? && ev.req == r then Some(ev.at) else HandledAt(log, r)
  {
    assert (log + [ev])[..|log|] == log;
  }

  lemma StillInPassAppend(log: seq<Event>, ev: Event, r: Request, w: nat)
    ensures StillInPass(log + [ev], r, w)
         == ((ev.Sent? && ev.req == r) || (ev != CleanedUp(w) && StillInPass(log, r, w)))
  {
    assert (log + [ev])[..|log|] == log;
  }

  lemma RanIsPosted(s: State, r: Request)
    requires Inv(s) && r in s.ran
    ensures r in s.posted
  {
    hide HashFrom, LastReply, QueueOf;
    ViewAt(s, r.endpoint);
    OfIndices(s.ran, r.endpoint);
    OfIndices(s.posted, r.endpoint);
    var v := ViewOf(s, r.endpoint);
    assert v.ran <= v.posted;
  }

  lemma PostLives(s: State, q: Request, r: Request)
    requires Inv(s) && Enabled(s, Post(q)) && LivesAt(s, r)
    ensures LivesAt(Act(s, Post(q)), r)
  {
    hide HashFrom, QueueOf, PostTo, StillInPass, Views, Queues, WorkerOk;
    var w := Route(r.endpoint, |s.workers|);
    PostToQueue(s.workers[w].requestsIn, q, r.endpoint);
    if r in s.ran {
      RanIsPosted(s, r);
    }
  }

  lemma SendLives(s: State, w: nat, r: Request)
    requires Inv(s) && Enabled(s, Take(w)) && LivesAt(s, r)
    ensures LivesAt(TakeNext(s, w), r)
  {
    hide HashFrom, QueueOf, StillInPass, Views, WorkerOk;
    var lane := s.workers[w].phase.copy[0];
    if lane.queue != [] && MaySend(Find(s.workers[w].buckets, lane.endpoint), s.clock) {
      var q := lane.queue[0];
      NextIsHeld(s, w);
      StillInPassAppend(s.log, Sent(q, s.clock), r, Route(r.endpoint, |s.workers|));
    }
  }

  /** The request a worker comes to is one of its own, and has not been sent. */
  lemma NextIsHeld(s: State, w: nat)
    requires Inv(s) && Enabled(s, Take(w)) && s.workers[w].phase.copy[0].queue != []
    ensures var q := s.workers[w].phase.copy[0].queue[0];
      w == Route(q.endpoint, |s.workers|) && q in QueueOf(s.workers[w].requestsIn, q.endpoint) && q !in s.ran
  {
    hide HashFrom, QueueOf, LastReply, Of, Views, ViewOk;
    var copy := s.workers[w].phase.copy;
    var q := copy[0].queue[0];
    HeadIsOfItsLane(s, w);
    SendLanes(copy, q.endpoint);
    ViewAt(s, q.endpoint);
    OfIndices(s.posted, q.endpoint);
    OfIndices(s.ran, q.endpoint);
    HeldInView(ViewOf(s, q.endpoint), s.completed, q.endpoint, q);
  }

  lemma CleanLives(s: State, w: nat, r: Request)
    requires Inv(s) && Enabled(s, Clean(w)) && LivesAt(s, r)
    ensures LivesAt(Act(s, Clean(w)), r)
  {
    hide HashFrom, QueueOf, LastReply, Of, StillInPass, Views, ViewOk, Inv;
    StillInPassAppend(s.log, CleanedUp(w), r, Route(r.endpoint, |s.workers|));
    if w == Route(r.endpoint, |s.workers|) && r in s.ran {
      CleanKeeps(s, w);
      AtRestHoldsNoSent(Act(s, Clean(w)), w, r);
    }
  }

  lemma AtRestHoldsNoSent(s: State, w: nat, r: Request)
    requires Inv(s) && r in s.ran && w == Route(r.endpoint, |s.workers|) && s.workers[w].phase.Idle?
    ensures r !in QueueOf(s.workers[w].requestsIn, r.endpoint)
  {
    hide HashFrom, QueueOf, LastReply, Of, Views, ViewOk;
    ViewAt(s, r.endpoint);
    OfIndices(s.posted, r.endpoint);
    OfIndices(s.ran, r.endpoint);
    HeldInView(ViewOf(s, r.endpoint), s.completed, r.endpoint, r);
  }

  lemma OtherLives(s: State, step: Step, r: Request)
    requires Inv(s) && Enabled(s, step) && LivesAt(s, r) && !step.Post? && !step.Take? && !step.Clean?
    ensures LivesAt(Act(s, step), r)
  {
    hide HashFrom, QueueOf, StillInPass, Views, Queues, WorkerOk;
    var w := Route(r.endpoint, |s.workers|);
    match step
    case Receive(k, reply) =>
      StillInPassAppend(s.log, Replied(s.workers[k].phase.req, s.clock, reply), r, w);
    case OutPass =>
      if s.responsesOut != [] {
        StillInPassAppend(s.log, Handled(s.responsesOut[0], s.clock), r, w);
      }
    case _ =>
  }

  lemma LivesKept(s: State, step: Step)
    requires Inv(s) && Enabled(s, step) && Lives(s)
    ensures Lives(Act(s, step))
  {
    hide Act, LivesAt, Views, Queues, WorkerOk;
    StepKeeps(s, step);
    forall r ensures LivesAt(Act(s, step), r) {
      assert LivesAt(s, r);
      match step
      case Post(q) => PostLives(s, q, r);
      case Take(w) => TakeLives(s, w, r);
      case Clean(w) => CleanLives(s, w, r);
      case _ => OtherLives(s, step, r);
    }
  }

  lemma TakeLives(s: State, w: nat, r: Request)
    requires Inv(s) && Enabled(s, Take(w)) && LivesAt(s, r)
    ensures LivesAt(Act(s, Take(w)), r)
  {
    hide TakeNext, LivesAt, Inv;
    SendLives(s, w, r);
  }

  lemma OtherAges(s: State, step: Step)
    requires Ages(s) && Enabled(s, step) && !step.OutPass?
    ensures Ages(Act(s, step))
  {
    hide PostTo, HandledAt, Cleaned;
    var t := Act(s, step);
    assert t.handled == s.handled && t.deleted == s.deleted && t.toDelete == s.toDelete && t.clock >= s.clock;
    forall r ensures HandledAt(t.log, r) == HandledAt(s.log, r) {
      if t.log != s.log {
        HandledAtAppend(s.log, t.log[|s.log|], r);
        assert t.log == s.log + [t.log[|s.log|]];
      }
    }
    hide Act;
  }

  /** The deletions waiting when the completion thread has taken one request. */
  lemma WaitingIs(s: State)
    requires Queues(s)
    ensures Scheduled(s.toDelete, Popped(s), s.clock)
         == s.toDelete + if s.responsesOut == [] then [] else [Deletion(s.clock + LIFETIME, s.responsesOut[0])]
  {
    if s.responsesOut == [] {
      assert s.toDelete + [] == s.toDelete;
    } else {
      ScheduleLast(s.toDelete, Deletion(s.clock + LIFETIME, s.responsesOut[0]));
    }
  }

  /** A turn of the completion thread calls the handler of the first finished request, for the first time. */
  lemma OutPassHandles(s: State, r: Request)
    requires Inv(s) && Enabled(s, OutPass)
    ensures Act(s, OutPass).clock == s.clock
    ensures HandledAt(Act(s, OutPass).log, r)
         == if s.responsesOut != [] && r == s.responsesOut[0] then Some(s.clock) else HandledAt(s.log, r)
    ensures r in Act(s, OutPass).handled <==> r in s.handled || (s.responsesOut != [] && r == s.responsesOut[0])
    ensures s.responsesOut != [] ==> s.responsesOut[0] !in s.handled
  {
    hide Act, HandledAt, HashFrom, Workers, Views;
    OutPassIs(s);
    HandledOnce(s);
    if s.responsesOut != [] {
      HandledAtAppend(s.log, Handled(s.responsesOut[0], s.clock), r);
      var all := s.handled + s.responsesOut;
      forall i | 0 <= i < |s.handled| ensures s.handled[i] != s.responsesOut[0] {
        assert all[i] == s.handled[i] && all[|s.handled|] == s.responsesOut[0];
      }
    } else {
      assert s.log + [] == s.log;
    }
  }

  lemma WaitingAges(s: State)
    requires Inv(s) && Ages(s) && Enabled(s, OutPass)
    ensures var t, waiting := Act(s, OutPass), Scheduled(s.toDelete, Popped(s), s.clock);
      && Sorted(waiting)
      && (forall i :: 0 <= i < |waiting| ==> MinuteAfter(t.log, waiting[i]))
      && (forall r :: r in s.deleted ==> Expired(t, r))
      && (forall r :: HandledAt(t.log, r).Some? ==> r in t.handled)
  {
    hide Act, HandledAt, HashFrom, Workers, Views;
    var t, waiting := Act(s, OutPass), Scheduled(s.toDelete, Popped(s), s.clock);
    WaitingIs(s);
    forall i | 0 <= i < |waiting| ensures MinuteAfter(t.log, waiting[i]) {
      OutPassHandles(s, waiting[i].req);
      if i < |s.toDelete| {
        assert waiting[i] == s.toDelete[i] && Requests(s.toDelete)[i] == s.toDelete[i].req;
        assert s.toDelete[i].req in s.handled;
      }
    }
    forall r | r in s.deleted ensures Expired(t, r) {
      assert r in s.handled;
      OutPassHandles(s, r);
    }
    forall r | HandledAt(t.log, r).Some? ensures r in t.handled {
      OutPassHandles(s, r);
    }
  }

  /** The entries due are in front, whatever is waiting behind them. */
  lemma DueAges(log: seq<Event>, waiting: seq<Deletion>, now: nat)
    requires Sorted(waiting) && forall i :: 0 <= i < |waiting| ==> MinuteAfter(log, waiting[i])
    ensures var n := DueCount(waiting, now);
      && Sorted(waiting[n..])
      && (forall i :: 0 <= i < |waiting[n..]| ==> MinuteAfter(log, waiting[n..][i]))
      && (forall r :: r in Requests(waiting[..n]) ==> HandledAt(log, r).Some? && HandledAt(log, r).value + LIFETIME <= now)
      && (forall r :: r in Requests(waiting[n..]) ==> HandledAt(log, r).Some? && HandledAt(log, r).value + LIFETIME > now)
  {
    hide DueCount, HandledAt;
    var n := DueCount(waiting, now);
    forall r | r in Requests(waiting[..n]) ensures HandledAt(log, r).Some? && HandledAt(log, r).value + LIFETIME <= now {
      var i :| 0 <= i < n && Requests(waiting[..n])[i] == r;
      assert MinuteAfter(log, waiting[i]);
    }
    forall r | r in Requests(waiting[n..]) ensures HandledAt(log, r).Some? && HandledAt(log, r).value + LIFETIME > now {
      var i :| 0 <= i < |waiting[n..]| && Requests(waiting[n..])[i] == r;
      assert MinuteAfter(log, waiting[n + i]) && waiting[n].due <= waiting[n + i].due;
    }
  }

  /** After a turn of the completion thread the requests whose minute is over are deleted, and no others. */
  lemma OutPassAges(s: State)
    requires Inv(s) && Ages(s) && Enabled(s, OutPass)
    ensures Ages(Act(s, OutPass))
    ensures forall r :: r in Act(s, OutPass).deleted <==> Expired(Act(s, OutPass), r)
  {
    hide Act, HandledAt, HashFrom, Workers, Views, Distinct, Spaced, Scheduled, DueCount, MinuteAfter, Requests, Sorted;
    var t, waiting := Act(s, OutPass), Scheduled(s.toDelete, Popped(s), s.clock);
    OutPassIs(s);
    WaitingAges(s);
    OutPassQueues(s);
    DueAges(t.log, waiting, s.clock);
  }

  lemma AgesKept(s: State, step: Step)
    requires Inv(s) && Ages(s) && Enabled(s, step)
    ensures Ages(Act(s, step))
  {
    hide Act, Ages, Inv;
    if step.OutPass? {
      OutPassAges(s);
    } else {
      OtherAges(s, step);
    }
  }

  lemma InitialLife(poolSize: nat, clock: nat)
    requires poolSize > 0
    ensures LifeInv(Initial(poolSize, clock))
  {
    hide Inv, HashFrom;
    InitialInv(poolSize, clock);
  }

  lemma NextLife(s: State, step: Step)
    requires LifeInv(s) && Enabled(s, step)
    ensures LifeInv(Next(s, step))
  {
    hide Act, Fails, LivesAt, Ages, Views, Queues, WorkerOk;
    if Fails(s, step) {
      FailureKeeps(s);
      FailureLife(s);
    } else {
      StepKeeps(s, step);
      LivesKept(s, step);
      AgesKept(s, step);
    }
  }

  lemma FailureLife(s: State)
    requires |s.workers| > 0 && Lives(s) && Ages(s)
    ensures Lives(s.(failed := true)) && Ages(s.(failed := true))
  {
    hide HashFrom, QueueOf, StillInPass, HandledAt;
    forall r ensures LivesAt(s.(failed := true), r) {
      assert LivesAt(s, r);
    }
  }

  lemma {:induction false} RunLife(s: State, steps: seq<Step>)
    requires LifeInv(s) && IsRun(s, steps)
    ensures LifeInv(After(s, steps))
    decreases |steps|
  {
    if steps != [] {
      NextLife(s, steps[0]);
      RunLife(Next(s, steps[0]), steps[1..]);
    }
  }

  lemma ReachableLife(s: State)
    requires Reachable(s)
    ensures LifeInv(s)
  {
    var poolSize: nat, clock: nat, steps :|
      poolSize > 0 && IsRun(Initial(poolSize, clock), steps) && s == After(Initial(poolSize, clock), steps);
    InitialLife(poolSize, clock);
    RunLife(Initial(poolSize, clock), steps);
  }

  // ---------- Requests deleted while a worker holds them ----------

  predicate HoldsDeleted(s: State, w: nat, r: Request) {
    w < |s.workers| && r in HeldBy(s.workers[w].requestsIn) && r in s.deleted
  }

  /** The request's minute is over and the pass that sent it is not. */
  predicate OverdueAt(s: State, r: Request)
    requires |s.workers| > 0
  {
    Expired(s, r) && StillInPass(s.log, r, Route(r.endpoint, |s.workers|))
  }

  ghost predicate Overdue(s: State) {
    |s.workers| > 0 && exists r :: OverdueAt(s, r)
  }

  /** A deleted request has been read, or a worker holds one it will read. */
  ghost predicate Unsafe(s: State) {
    s.failed || exists w: nat, r :: HoldsDeleted(s, w, r)
  }

  lemma DeletedIsRan(s: State, r: Request)
    requires Inv(s) && r in s.deleted
    ensures r in s.ran
  {
    hide Workers, Views, Spaced, Distinct;
    HandledOnce(s);
  }

  lemma HoldsDeletedIs(s: State, w: nat, r: Request)
    requires LifeInv(s) && w < |s.workers|
    ensures HoldsDeleted(s, w, r)
       <==> w == Route(r.endpoint, |s.workers|) && r in s.deleted && StillInPass(s.log, r, w)
  {
    hide HashFrom, QueueOf, HeldBy, StillInPass, Ages, Views, Queues, WorkerOk;
    HeldIn(s, r, w);
    if r in s.deleted {
      DeletedIsRan(s, r);
      assert LivesAt(s, r);
    }
  }

  /** Only a cleaning can read what has been deleted, and it does so when its worker holds some of it. */
  lemma OnlyCleanFails(s: State, step: Step)
    requires LifeInv(s) && Enabled(s, step)
    ensures Fails(s, step) <==> step.Clean? && exists r :: HoldsDeleted(s, step.w, r)
  {
    hide HashFrom, QueueOf, HeldBy, Lives, Ages, Workers, Views, Spaced;
    match step
    case Take(w) =>
      var lane := s.workers[w].phase.copy[0];
      if lane.queue != [] && lane.queue[0] in s.deleted {
        NextIsHeld(s, w);
        DeletedIsRan(s, lane.queue[0]);
      }
    case Receive(w, _) =>
      OnWireNotFinished(s, w);
    case OutPass =>
      FinishedNotDeleted(s);
    case Clean(w) =>
      assert forall r :: r in Touched(s, step) && r in s.deleted <==> HoldsDeleted(s, w, r);
    case _ =>
  }

  lemma OnWireNotFinished(s: State, w: nat)
    requires Inv(s) && w < |s.workers| && s.workers[w].phase.Sending?
    ensures s.workers[w].phase.req !in s.deleted
  {
    hide HashFrom, QueueOf, LastReply, Of, Views, ViewOk;
    var r := s.workers[w].phase.req;
    ViewAt(s, r.endpoint);
    OfIndices(s.posted, r.endpoint);
    OfIndices(s.handled + s.responsesOut, r.endpoint);
    HeldInView(ViewOf(s, r.endpoint), s.completed, r.endpoint, r);
    assert r in s.deleted ==> r in s.handled + s.responsesOut;
  }

  lemma FinishedNotDeleted(s: State)
    requires Inv(s)
    ensures s.responsesOut != [] ==> s.responsesOut[0] !in s.deleted
    ensures forall i :: 0 <= i < |s.toDelete| ==> s.toDelete[i].req !in s.deleted
  {
    hide Workers, Views, Spaced;
    HandledOnce(s);
    var all := s.handled + s.responsesOut;
    assert forall i :: 0 <= i < |s.deleted| ==> all[i] == s.deleted[i];
    forall i | 0 <= i < |s.toDelete| ensures s.toDelete[i].req !in s.deleted {
      assert all[|s.deleted| + i] == Requests(s.toDelete)[i];
    }
    assert s.responsesOut != [] ==> all[|s.handled|] == s.responsesOut[0];
  }

  /**
   A turn of the completion thread leaves a worker holding a deleted request just when the
   request's minute is over and that worker's pass has not come to its cleaning since sending it.
   */
  lemma DeletedWhileHeld(s: State, w: nat, r: Request)
    requires LifeInv(s) && Enabled(s, OutPass) && w < |s.workers|
    ensures var t := Next(s, OutPass);
      && !t.failed && |t.workers| == |s.workers|
      && (HoldsDeleted(t, w, r) <==> w == Route(r.endpoint, |s.workers|) && Expired(s, r) && StillInPass(s.log, r, w))
  {
    hide Act, HashFrom, HandledAt, StillInPass, HoldsDeleted, Lives, Workers, Views, Queues, Ages, LifeInv;
    var t := Next(s, OutPass);
    OnlyCleanFails(s, OutPass);
    NextLife(s, OutPass);
    OutPassNext(s, w, r);
    HoldsDeletedIs(t, w, r);
  }

  lemma OutPassNext(s: State, w: nat, r: Request)
    requires LifeInv(s) && Enabled(s, OutPass)
    ensures var t := Act(s, OutPass);
      && t.workers == s.workers && !t.failed
      && (StillInPass(t.log, r, w) <==> StillInPass(s.log, r, w))
      && (r in t.deleted <==> Expired(s, r))
  {
    hide Act, HashFrom, HandledAt, StillInPass, Lives, Workers, Views;
    OutPassIs(s);
    OutPassAges(s);
    OutPassHandles(s, r);
    if s.responsesOut != [] {
      StillInPassAppend(s.log, Handled(s.responsesOut[0], s.clock), r, w);
    } else {
      assert s.log + [] == s.log;
    }
  }

  /** Between turns of the completion thread no worker comes to hold a deleted request, or lets one go. */
  lemma HoldsAsBefore(s: State, step: Step, w: nat, r: Request)
    requires LifeInv(s) && Enabled(s, step) && !step.OutPass? && w < |s.workers|
    requires !(step.Clean? && HoldsDeleted(s, step.w, r))
    ensures |Act(s, step).workers| == |s.workers|
    ensures HoldsDeleted(Act(s, step), w, r) <==> HoldsDeleted(s, w, r)
  {
    hide HashFrom, QueueOf, HoldsDeleted, StillInPass, HandledAt, Ages, Lives, Views, Queues, WorkerOk, PostTo, Cleaned;
    var t := Act(s, step);
    ActLife(s, step);
    HoldsDeletedIs(s, w, r);
    HoldsDeletedIs(t, w, r);
    match step
    case Take(k) =>
      var lane := s.workers[k].phase.copy[0];
      if lane.queue != [] && MaySend(Find(s.workers[k].buckets, lane.endpoint), s.clock) {
        StillInPassAppend(s.log, Sent(lane.queue[0], s.clock), r, w);
        NextIsHeld(s, k);
        if r in s.deleted {
          DeletedIsRan(s, r);
        }
      }
    case Receive(k, reply) =>
      StillInPassAppend(s.log, Replied(s.workers[k].phase.req, s.clock, reply), r, w);
    case Clean(k) =>
      StillInPassAppend(s.log, CleanedUp(k), r, w);
    case _ =>
  }

  lemma ActLife(s: State, step: Step)
    requires LifeInv(s) && Enabled(s, step)
    ensures LifeInv(Act(s, step))
  {
    hide Act, LivesAt, Ages, Views, Queues, WorkerOk;
    StepKeeps(s, step);
    LivesKept(s, step);
    AgesKept(s, step);
  }

  lemma ActKeepsFailed(s: State, step: Step)
    requires Enabled(s, step)
    ensures !Act(s, step).failed
  {
    hide PostTo, Cleaned, Scheduled, DueCount;
  }

  /** A step makes the queue unsafe just when the completion thread takes its turn at an overdue state. */
  lemma UnsafeNext(s: State, step: Step)
    requires LifeInv(s) && Enabled(s, step)
    ensures Unsafe(Next(s, step)) <==> Unsafe(s) || (step.OutPass? && Overdue(s))
  {
    hide Act, Fails, Enabled, HoldsDeleted, LifeInv, Expired, StillInPass, HashFrom;
    var t := Next(s, step);
    OnlyCleanFails(s, step);
    if step.OutPass? {
      OutPassUnsafe(s);
    } else if !Fails(s, step) {
      ActKeepsFailed(s, step);
      WorkersKept(s, step);
      forall w: nat, r ensures HoldsDeleted(t, w, r) <==> HoldsDeleted(s, w, r) {
        if w < |s.workers| {
          HoldsAsBefore(s, step, w, r);
        } else {
          NobodyHolds(s, w, r);
          NobodyHolds(t, w, r);
        }
      }
      assert !s.failed by { NotFailed(s, step); }
    }
  }

  lemma NotFailed(s: State, step: Step)
    requires Enabled(s, step)
    ensures !s.failed
  {
  }

  lemma WorkersKept(s: State, step: Step)
    requires LifeInv(s) && Enabled(s, step)
    ensures |Act(s, step).workers| == |s.workers|
  {
    hide PostTo, Cleaned, Scheduled, DueCount, HashFrom;
  }

  lemma NobodyHolds(s: State, w: nat, r: Request)
    requires w >= |s.workers|
    ensures !HoldsDeleted(s, w, r)
  {
  }

  lemma OutPassNeverFails(s: State)
    requires LifeInv(s) && Enabled(s, OutPass)
    ensures !Next(s, OutPass).failed && |Next(s, OutPass).workers| == |s.workers|
  {
    hide Act, LifeInv, Fails, HoldsDeleted;
    OnlyCleanFails(s, OutPass);
    ActKeepsFailed(s, OutPass);
    WorkersKept(s, OutPass);
  }

  lemma OutPassUnsafe(s: State)
    requires LifeInv(s) && Enabled(s, OutPass)
    ensures Unsafe(Next(s, OutPass)) <==> Unsafe(s) || Overdue(s)
  {
    hide Next, HoldsDeleted, Expired, StillInPass, HashFrom, WorkerOk, Views, Queues, Lives, Ages;
    var t := Next(s, OutPass);
    OutPassNeverFails(s);
    forall w: nat, r ensures HoldsDeleted(t, w, r) <==> w == Route(r.endpoint, |s.workers|) && OverdueAt(s, r) {
      if w < |s.workers| {
        DeletedWhileHeld(s, w, r);
      } else {
        NobodyHolds(t, w, r);
      }
    }
    forall w: nat, r | HoldsDeleted(s, w, r) ensures OverdueAt(s, r) {
      NowOverdue(s, w, r);
    }
    if Overdue(s) {
      var r :| OverdueAt(s, r);
      assert HoldsDeleted(t, Route(r.endpoint, |s.workers|), r);
    }
  }

  lemma NowOverdue(s: State, w: nat, r: Request)
    requires LifeInv(s) && HoldsDeleted(s, w, r)
    ensures OverdueAt(s, r)
  {
    hide HashFrom, HandledAt, StillInPass, Inv, Lives;
    HoldsDeletedIs(s, w, r);
  }

  // ---------- Whole runs ----------

  /** Some turn of the completion thread finds a request whose minute is over in a pass that is not. */
  ghost predicate Tardy(s: State, steps: seq<Step>)
    requires IsRun(s, steps)
    decreases |steps|
  {
    steps != [] && ((steps[0].OutPass? && Overdue(s)) || Tardy(Next(s, steps[0]), steps[1..]))
  }

  /** A run comes to hold or read deleted requests just when it is tardy. */
  lemma {:induction false} UnsafeJustWhenTardy(s: State, steps: seq<Step>)
    requires LifeInv(s) && IsRun(s, steps)
    ensures Unsafe(After(s, steps)) <==> Unsafe(s) || Tardy(s, steps)
    decreases |steps|
  {
    hide Unsafe, Overdue, LifeInv, Next, Enabled;
    if steps != [] {
      UnsafeNext(s, steps[0]);
      NextLife(s, steps[0]);
      UnsafeJustWhenTardy(Next(s, steps[0]), steps[1..]);
    }
  }

  /** From the empty queue, a run comes to hold or read deleted requests just when it is tardy. */
  lemma UnsafeRuns(poolSize: nat, clock: nat, steps: seq<Step>)
    requires poolSize > 0 && IsRun(Initial(poolSize, clock), steps)
    ensures Unsafe(After(Initial(poolSize, clock), steps)) <==> Tardy(Initial(poolSize, clock), steps)
  {
    hide Tardy;
    InitialLife(poolSize, clock);
    InitiallySafe(poolSize, clock);
    UnsafeJustWhenTardy(Initial(poolSize, clock), steps);
  }

  lemma InitiallySafe(poolSize: nat, clock: nat)
    ensures !Unsafe(Initial(poolSize, clock))
  {
  }

  /** A run that is never tardy does not fail, and has sent and handled everything once and in order. */
  lemma PromptRunsAreOrderly(poolSize: nat, clock: nat, steps: seq<Step>, e: Endpoint)
    requires poolSize > 0 && IsRun(Initial(poolSize, clock), steps) && !Tardy(Initial(poolSize, clock), steps)
    ensures var t := After(Initial(poolSize, clock), steps);
      && !t.failed && |t.workers| > 0
      && Of(t.ran, e) + Pending(t, e) == Of(t.posted, e)
      && Of(t.handled, e) <= Of(t.ran, e)
      && Distinct(t.ran) && Distinct(t.handled)
  {
    hide Tardy, Of, Pending;
    UnsafeRuns(poolSize, clock, steps);
    var t := After(Initial(poolSize, clock), steps);
    assert Reachable(t);
    hide Reachable, IsRun, After;
    SentInPostingOrder(t, e);
    HandledInPostingOrder(t, e);
    AtMostOnce(t);
  }

  // ---------- A run that reads a deleted request ----------

  const GET: Endpoint := [103]
  const FIRST := Request(1, GET)
  const SECOND := Request(2, GET)
  const OK := Reply(1, 0, 0, false)

  /** One pass sends two requests, the second of which takes a minute. */
  function SlowPass(): seq<Step> {
    [Post(FIRST), Post(SECOND), Snapshot(0), Take(0), Receive(0, OK), Publish(0), OutPass,
     Take(0), Tick(61), OutPass, Receive(0, OK), Publish(0), Take(0), Clean(0)]
  }

  ghost predicate Leads(s: State, steps: seq<Step>, t: State) {
    IsRun(s, steps) && After(s, steps) == t
  }

  lemma OneMore(s: State, step: Step, steps: seq<Step>, t: State)
    requires Enabled(s, step) && Leads(Next(s, step), steps, t)
    ensures Leads(s, [step] + steps, t)
  {
    hide Enabled, Next;
    assert ([step] + steps)[1..] == steps;
  }

  /** A pool of one worker that works on the two requests. */
  function Pool(held: seq<Request>, buckets: map<Endpoint, Bucket>, phase: Phase, clock: nat,
                posted: seq<Request>, ran: seq<Request>, log: seq<Event>): State {
    State([Worker(if held == [] then [] else [Lane(GET, held)], buckets, phase)], false, 0, {}, [], [], clock,
          posted, ran, [], [], log, false)
  }

  /** Where the first request has been answered, and then handled. */
  function SentFirst(): State {
    Pool([FIRST, SECOND], map[], Sending(FIRST, [Lane(GET, [SECOND])]), 0, [FIRST, SECOND], [FIRST], [Sent(FIRST, 0)])
  }

  function Answered(): State {
    Pool([FIRST, SECOND], map[GET := BucketOf(OK, 0)], Scanning([Lane(GET, [SECOND])]), 0, [FIRST, SECOND], [FIRST],
         [Sent(FIRST, 0), Replied(FIRST, 0, OK)]).(completed := {FIRST}, responsesOut := [FIRST])
  }

  function SentSecond(): State {
    Answered().(workers := [Worker([Lane(GET, [FIRST, SECOND])], map[GET := BucketOf(OK, 0)], Sending(SECOND, [Lane(GET, [])]))],
      responsesOut := [], handled := [FIRST], toDelete := [Deletion(60, FIRST)], ran := [FIRST, SECOND],
      log := [Sent(FIRST, 0), Replied(FIRST, 0, OK), Handled(FIRST, 0), Sent(SECOND, 0)])
  }

  /** A minute later, with the first request deleted. */
  function TooLate(): State {
    SentSecond().(clock := 61, toDelete := [], deleted := [FIRST])
  }

  lemma RouteOfOne(e: Endpoint)
    ensures Route(e, 1) == 0
  {
  }

  lemma NothingDeleted(s: State, step: Step)
    requires Enabled(s, step) && s.deleted == []
    ensures Next(s, step) == Act(s, step)
  {
    hide Act, Touched;
  }

  lemma PostsFirst()
    ensures Enabled(Initial(1, 0), Post(FIRST))
    ensures Next(Initial(1, 0), Post(FIRST)) == Pool([FIRST], map[], Idle, 0, [FIRST], [], [])
  {
    hide HashFrom;
    RouteOfOne(GET);
    NothingDeleted(Initial(1, 0), Post(FIRST));
    assert PostTo([], FIRST) == [Lane(GET, [FIRST])];
    assert Initial(1, 0).workers == [Worker([], map[], Idle)];
  }

  lemma PostsSecond()
    ensures Enabled(Pool([FIRST], map[], Idle, 0, [FIRST], [], []), Post(SECOND))
    ensures Next(Pool([FIRST], map[], Idle, 0, [FIRST], [], []), Post(SECOND))
         == Pool([FIRST, SECOND], map[], Idle, 0, [FIRST, SECOND], [], [])
  {
    hide HashFrom;
    RouteOfOne(GET);
    NothingDeleted(Pool([FIRST], map[], Idle, 0, [FIRST], [], []), Post(SECOND));
    var lanes := [Lane(GET, [FIRST])];
    assert HasLane(lanes, GET) by { assert lanes[0].endpoint == GET; }
    assert lanes[1..] == [] && [FIRST] + [SECOND] == [FIRST, SECOND];
    assert AppendTo(lanes, SECOND) == [Lane(GET, [FIRST, SECOND])] + lanes[1..];
    assert PostTo(lanes, SECOND) == [Lane(GET, [FIRST, SECOND])];
  }

  lemma TakesFirst()
    ensures var s := Pool([FIRST, SECOND], map[], Idle, 0, [FIRST, SECOND], [], []);
      && Enabled(s, Snapshot(0)) && Enabled(Next(s, Snapshot(0)), Take(0))
      && Next(Next(s, Snapshot(0)), Take(0)) == SentFirst()
  {
    var s := Pool([FIRST, SECOND], map[], Idle, 0, [FIRST, SECOND], [], []);
    NothingDeleted(s, Snapshot(0));
    NothingDeleted(Next(s, Snapshot(0)), Take(0));
    var copy := [Lane(GET, [FIRST, SECOND])];
    assert [FIRST, SECOND][1..] == [SECOND] && [Lane(GET, [SECOND])] + copy[1..] == [Lane(GET, [SECOND])];
    assert Find(s.workers[0].buckets, GET) == None && MaySend(None, 0);
    assert Next(Next(s, Snapshot(0)), Take(0)).workers == SentFirst().workers;
  }

  lemma AnswersFirst()
    ensures var s := SentFirst();
      && Enabled(s, Receive(0, OK)) && Enabled(Next(s, Receive(0, OK)), Publish(0))
      && Next(Next(s, Receive(0, OK)), Publish(0)) == Answered()
  {
    var s := SentFirst();
    NothingDeleted(s, Receive(0, OK));
    var t := Next(s, Receive(0, OK));
    assert t.log == Answered().log && t.completed == {FIRST};
    assert map[][GET := BucketOf(OK, 0)] == map[GET := BucketOf(OK, 0)];
    NothingDeleted(t, Publish(0));
  }

  /** What handling the first request leaves: it waits to be deleted. */
  function HandledFirst(): State {
    Answered().(responsesOut := [], handled := [FIRST], toDelete := [Deletion(60, FIRST)],
      log := [Sent(FIRST, 0), Replied(FIRST, 0, OK), Handled(FIRST, 0)])
  }

  lemma HandlesFirst()
    ensures Enabled(Answered(), OutPass) && Next(Answered(), OutPass) == HandledFirst()
  {
    var s := Answered();
    NothingDeleted(s, OutPass);
    assert Popped(s) == [FIRST] && Fired([FIRST], {FIRST}) == [FIRST];
    var waiting := [Deletion(60, FIRST)];
    assert Schedule([], Deletion(60, FIRST)) == waiting;
    assert DueCount(waiting, 0) == 0;
    assert waiting[0..] == waiting && waiting[..0] == [] && Requests([]) == [];
  }

  lemma TakesSecond()
    ensures Enabled(HandledFirst(), Take(0)) && Next(HandledFirst(), Take(0)) == SentSecond()
  {
    var s := HandledFirst();
    NothingDeleted(s, Take(0));
    assert [SECOND][1..] == [] && [Lane(GET, [])] + [Lane(GET, [SECOND])][1..] == [Lane(GET, [])];
    assert Find(s.workers[0].buckets, GET) == Some(BucketOf(OK, 0)) && MaySend(Some(BucketOf(OK, 0)), 0);
    assert Next(s, Take(0)).workers == SentSecond().workers;
    assert Next(s, Take(0)).log == SentSecond().log;
  }

  lemma DeletesFirst()
    ensures var s := SentSecond();
      && Enabled(s, Tick(61)) && Enabled(Next(s, Tick(61)), OutPass)
      && Next(Next(s, Tick(61)), OutPass) == TooLate()
  {
    var s := SentSecond().(clock := 61);
    NothingDeleted(SentSecond(), Tick(61));
    NothingDeleted(s, OutPass);
    var waiting := [Deletion(60, FIRST)];
    assert DueCount(waiting, 61) == 1;
    assert waiting[1..] == [] && waiting[..1] == waiting && Requests(waiting) == [FIRST];
  }

  /** The pass ends after the deletion; its cleaning asks the first request whether it is done. */
  function PassEnds(): State {
    TooLate().(workers := [Worker([Lane(GET, [FIRST, SECOND])], map[GET := BucketOf(OK, 61)], Scanning([]))],
      completed := {FIRST, SECOND}, responsesOut := [SECOND], log := SentSecond().log + [Replied(SECOND, 61, OK)])
  }

  lemma AnswersSecond()
    ensures var s := TooLate();
      && Enabled(s, Receive(0, OK)) && Enabled(Next(s, Receive(0, OK)), Publish(0))
      && Enabled(Next(Next(s, Receive(0, OK)), Publish(0)), Take(0))
      && Next(Next(Next(s, Receive(0, OK)), Publish(0)), Take(0)) == PassEnds()
  {
    var s := TooLate();
    var t := Next(s, Receive(0, OK));
    assert map[GET := BucketOf(OK, 0)][GET := BucketOf(OK, 61)] == map[GET := BucketOf(OK, 61)];
    assert !Fails(s, Receive(0, OK)) && {FIRST} + {SECOND} == {FIRST, SECOND};
    assert t.workers == [Worker([Lane(GET, [FIRST, SECOND])], map[GET := BucketOf(OK, 61)], Publishing(SECOND, [Lane(GET, [])]))];
    var u := Next(t, Publish(0));
    assert u.workers[0].phase == Scanning([Lane(GET, [])]) && [Lane(GET, [])][1..] == [] && !Fails(u, Take(0));
    assert Next(u, Take(0)).workers == PassEnds().workers;
  }

  lemma CleaningFails()
    ensures Enabled(PassEnds(), Clean(0)) && Fails(PassEnds(), Clean(0))
  {
    var lanes := PassEnds().workers[0].requestsIn;
    assert lanes[0] in lanes && FIRST in lanes[0].queue;
    assert FIRST in HeldBy(lanes);
  }

  lemma TwoMore(s: State, a: Step, b: Step, steps: seq<Step>, t: State)
    requires Enabled(s, a) && Enabled(Next(s, a), b) && Leads(Next(Next(s, a), b), steps, t)
    ensures Leads(s, [a, b] + steps, t)
  {
    hide Enabled, Next, Leads;
    OneMore(Next(s, a), b, steps, t);
    OneMore(s, a, [b] + steps, t);
    assert [a] + ([b] + steps) == [a, b] + steps;
  }

  lemma FailedNext(s: State, step: Step)
    requires Enabled(s, step) && Fails(s, step)
    ensures Next(s, step).failed
  {
    hide Fails;
  }

  lemma LeadsIs(s: State, steps: seq<Step>, t: State)
    requires Leads(s, steps, t)
    ensures IsRun(s, steps) && After(s, steps) == t
  {
    hide IsRun, After;
  }

  /** The steps up to the first request's deletion. */
  function SlowStart(): seq<Step> {
    [Post(FIRST), Post(SECOND), Snapshot(0), Take(0), Receive(0, OK), Publish(0), OutPass, Take(0), Tick(61), OutPass]
  }

  lemma SlowPassStarts(steps: seq<Step>, t: State)
    requires Leads(TooLate(), steps, t)
    ensures Leads(Initial(1, 0), SlowStart() + steps, t)
  {
    hide Next, Enabled, Initial, Pool, SentFirst, Answered, HandledFirst, SentSecond, TooLate, Leads;
    PostsFirst();
    PostsSecond();
    TakesFirst();
    AnswersFirst();
    HandlesFirst();
    TakesSecond();
    DeletesFirst();
    var d := [Tick(61), OutPass] + steps;
    TwoMore(SentSecond(), Tick(61), OutPass, steps, t);
    TwoMore(Answered(), OutPass, Take(0), d, t);
    var c := [OutPass, Take(0)] + d;
    TwoMore(SentFirst(), Receive(0, OK), Publish(0), c, t);
    var b := [Receive(0, OK), Publish(0)] + c;
    TwoMore(Pool([FIRST, SECOND], map[], Idle, 0, [FIRST, SECOND], [], []), Snapshot(0), Take(0), b, t);
    var a := [Snapshot(0), Take(0)] + b;
    TwoMore(Initial(1, 0), Post(FIRST), Post(SECOND), a, t);
    assert SlowStart() + steps == [Post(FIRST), Post(SECOND)] + a;
  }

  /** From the empty queue, one slow pass ends in reading a deleted request. */
  lemma SlowPassFails()
    ensures IsRun(Initial(1, 0), SlowPass()) && After(Initial(1, 0), SlowPass()).failed
    ensures Tardy(Initial(1, 0), SlowPass())
  {
    hide Next, Enabled, Initial, Pool, SentFirst, Answered, HandledFirst, SentSecond, TooLate, PassEnds, Tardy;
    CleaningFails();
    var t := Next(PassEnds(), Clean(0));
    FailedNext(PassEnds(), Clean(0));
    assert Leads(t, [], t);
    hide Leads;
    OneMore(PassEnds(), Clean(0), [], t);
    AnswersSecond();
    var u := Next(Next(TooLate(), Receive(0, OK)), Publish(0));
    OneMore(u, Take(0), [Clean(0)] + [], t);
    TwoMore(TooLate(), Receive(0, OK), Publish(0), [Take(0)] + ([Clean(0)] + []), t);
    SlowPassStarts([Receive(0, OK), Publish(0)] + ([Take(0)] + ([Clean(0)] + [])), t);
    assert SlowPass() == SlowStart() + ([Receive(0, OK), Publish(0)] + ([Take(0)] + ([Clean(0)] + [])));
    LeadsIs(Initial(1, 0), SlowPass(), t);
    UnsafeRuns(1, 0, SlowPass());
  }
}
