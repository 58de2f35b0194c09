/** What holds in every interleaving of the request scheduler. */
module RequestRuns {
  import opened Wrappers
  import opened Bytes
  import opened RequestQueue
  import opened Sequences

  // ---------- The invariant ----------

  function CopyOf(p: Phase): seq<Lane> {
    if p.Idle? then [] else p.copy
  }

  /** Every lane of worker `w` belongs to it, and so does its pass. */
  ghost predicate WorkerOk(wk: Worker, w: nat, poolSize: nat)
    requires poolSize > 0
  {
    && UniqueLanes(wk.requestsIn)
    && UniqueLanes(CopyOf(wk.phase))
    && (forall e {:trigger HasLane(wk.requestsIn, e)} :: HasLane(wk.requestsIn, e) ==> Route(e, poolSize) == w)
    && (forall e {:trigger HasLane(CopyOf(wk.phase), e)} :: HasLane(CopyOf(wk.phase), e) ==> Route(e, poolSize) == w)
    && (wk.phase.Sending? || wk.phase.Publishing? ==> Route(wk.phase.req.endpoint, poolSize) == w)
  }

  /** What the worker of an endpoint is doing for it. */
  datatype Stage = AtRest | InPass | OnWire(req: Request) | Answered(req: Request)

  function StageOf(p: Phase, e: Endpoint): Stage {
    match p
    case Idle => AtRest
    case Scanning(_) => InPass
    case Sending(r, _) => if r.endpoint == e then OnWire(r) else InPass
    case Publishing(r, _) => if r.endpoint == e then Answered(r) else InPass
  }

  /** The part of a state that concerns one endpoint. */
  datatype View = View(
    held: seq<Request>,
    copy: seq<Request>,
    stage: Stage,
    posted: seq<Request>,
    ran: seq<Request>,
    out: seq<Request>,
    bucket: Option<Bucket>,
    lastReply: Option<Bucket>)

  function ViewOf(s: State, e: Endpoint): View
    requires |s.workers| > 0
  {
    var wk := s.workers[Route(e, |s.workers|)];
    View(QueueOf(wk.requestsIn, e), QueueOf(CopyOf(wk.phase), e), StageOf(wk.phase, e),
         Of(s.posted, e), Of(s.ran, e), Of(s.handled + s.responsesOut, e),
         Find(wk.buckets, e), LastReply(s.log, e))
  }

  /**
   The worker holds the tail of what was posted, what was sent is the front of what was
   posted, and the pass works on what comes right after.
   */
  ghost predicate ViewOk(v: View, done: set<Request>, e: Endpoint) {
    Shape(v) && Done(v, done, e) && v.bucket == v.lastReply
  }

  ghost predicate Shape(v: View) {
    var busy := if v.stage.OnWire? || v.stage.Answered? then 1 else 0;
    && |v.held| <= |v.posted| <= |v.held| + |v.ran|
    && v.held == v.posted[|v.posted| - |v.held|..]
    && |v.ran| + |v.copy| <= |v.posted|
    && v.ran == v.posted[..|v.ran|]
    && v.copy == v.posted[|v.ran|..|v.ran| + |v.copy|]
    && (v.stage.AtRest? ==> |v.ran| == |v.posted| - |v.held|)
    && busy <= |v.ran|
    && (busy == 1 ==> v.ran[|v.ran| - 1] == v.stage.req)
    && v.out == v.ran[..|v.ran| - busy]
  }

  /** The endpoint's completed requests are those sent, but for one that is on the wire. */
  ghost predicate Done(v: View, done: set<Request>, e: Endpoint) {
    && (forall i :: 0 <= i < |v.ran| - (if v.stage.OnWire? then 1 else 0) ==> v.ran[i] in done)
    && (forall r :: r in done && r.endpoint == e ==> r in v.ran)
  }

  /** Every send was allowed by the last reply on its endpoint before it. */
  predicate Spaced(log: seq<Event>) {
    log == [] ||
    (Spaced(log[..|log| - 1]) &&
     var ev := log[|log| - 1];
     ev.Sent? ==> MaySend(LastReply(log[..|log| - 1], ev.req.endpoint), ev.at))
  }

  ghost predicate Workers(s: State) {
    |s.workers| > 0 && forall w :: 0 <= w < |s.workers| ==> WorkerOk(s.workers[w], w, |s.workers|)
  }

  ghost predicate Views(s: State)
    requires |s.workers| > 0
  {
    forall e {:trigger ViewOf(s, e)} :: ViewOk(ViewOf(s, e), s.completed, e)
  }

  ghost predicate Queues(s: State) {
    && Distinct(s.posted)
    && Spaced(s.log)
    && (forall r :: r in s.responsesOut ==> r in s.completed)
    && s.handled == s.deleted + Requests(s.toDelete)
    && (forall i :: 0 <= i < |s.toDelete| ==> s.toDelete[i].due <= s.clock + 60)
  }

  ghost predicate Inv(s: State) {
    Workers(s) && Views(s) && Queues(s)
  }

  // ---------- Facts about lanes and logs ----------

  lemma {:induction false} QueueOfAt(lanes: seq<Lane>, i: nat)
    requires i < |lanes| && UniqueLanes(lanes)
    ensures QueueOf(lanes, lanes[i].endpoint) == lanes[i].queue
  {
    if i > 0 {
      assert lanes[1..][i - 1] == lanes[i];
      QueueOfAt(lanes[1..], i - 1);
    }
  }

  lemma {:induction false} QueueOfAbsent(lanes: seq<Lane>, e: Endpoint)
    requires !HasLane(lanes, e)
    ensures QueueOf(lanes, e) == []
  {
    if lanes != [] {
      assert forall i :: 0 <= i < |lanes| - 1 ==> lanes[1..][i] == lanes[i + 1];
      QueueOfAbsent(lanes[1..], e);
    }
  }

  lemma {:induction false} AppendToKeeps(lanes: seq<Lane>, r: Request)
    ensures |AppendTo(lanes, r)| == |lanes|
    ensures forall i :: 0 <= i < |lanes| ==> AppendTo(lanes, r)[i].endpoint == lanes[i].endpoint
  {
    if lanes != [] {
      AppendToKeeps(lanes[1..], r);
    }
  }

  lemma {:induction false} AppendToQueue(lanes: seq<Lane>, r: Request, e: Endpoint)
    ensures QueueOf(AppendTo(lanes, r), e)
         == if e == r.endpoint && HasLane(lanes, e) then QueueOf(lanes, e) + [r] else QueueOf(lanes, e)
  {
    if lanes != [] {
      assert HasLane(lanes, e) <==> lanes[0].endpoint == e || HasLane(lanes[1..], e) by {
        assert forall i :: 0 <= i < |lanes| - 1 ==> lanes[1..][i] == lanes[i + 1];
        if HasLane(lanes, e) && lanes[0].endpoint != e {
          var i :| 0 <= i < |lanes| && lanes[i].endpoint == e;
          assert lanes[1..][i - 1].endpoint == e;
        }
      }
      AppendToQueue(lanes[1..], r, e);
      if lanes[0].endpoint != r.endpoint {
        assert ([lanes[0]] + AppendTo(lanes[1..], r))[1..] == AppendTo(lanes[1..], r);
      } else {
        assert ([Lane(r.endpoint, lanes[0].queue + [r])] + lanes[1..])[1..] == lanes[1..];
      }
    }
  }

  lemma {:induction false} InsertLaneQueue(lanes: seq<Lane>, r: Request, e: Endpoint)
    requires !HasLane(lanes, r.endpoint)
    ensures QueueOf(InsertLane(lanes, r), e) == if e == r.endpoint then [r] else QueueOf(lanes, e)
  {
    var l := InsertLane(lanes, r);
    if lanes == [] || KeyLess(r.endpoint, lanes[0].endpoint) {
      assert l[1..] == lanes;
    } else {
      assert forall i :: 0 <= i < |lanes| - 1 ==> lanes[1..][i] == lanes[i + 1];
      InsertLaneQueue(lanes[1..], r, e);
      assert l[1..] == InsertLane(lanes[1..], r);
    }
  }

  /** Where the new lane goes: the lanes before and after it keep their places. */
  lemma {:induction false} InsertLaneSplits(lanes: seq<Lane>, r: Request) returns (k: nat)
    ensures k <= |lanes| && InsertLane(lanes, r) == lanes[..k] + [Lane(r.endpoint, [r])] + lanes[k..]
  {
    if lanes == [] || KeyLess(r.endpoint, lanes[0].endpoint) {
      k := 0;
    } else {
      var j := InsertLaneSplits(lanes[1..], r);
      k := j + 1;
      assert lanes[..k] == [lanes[0]] + lanes[1..][..j];
    }
  }

  lemma PostToLanes(lanes: seq<Lane>, r: Request)
    requires UniqueLanes(lanes)
    ensures UniqueLanes(PostTo(lanes, r))
    ensures forall e :: HasLane(PostTo(lanes, r), e) ==> e == r.endpoint || HasLane(lanes, e)
  {
    if HasLane(lanes, r.endpoint) {
      AppendToKeeps(lanes, r);
      forall e | HasLane(PostTo(lanes, r), e) ensures HasLane(lanes, e) {
        var i :| 0 <= i < |lanes| && PostTo(lanes, r)[i].endpoint == e;
        assert lanes[i].endpoint == e;
      }
    } else {
      var k := InsertLaneSplits(lanes, r);
      InsertedLanes(lanes, k, Lane(r.endpoint, [r]));
    }
  }

  lemma InsertedLanes(lanes: seq<Lane>, k: nat, lane: Lane)
    requires UniqueLanes(lanes) && k <= |lanes| && !HasLane(lanes, lane.endpoint)
    ensures UniqueLanes(lanes[..k] + [lane] + lanes[k..])
    ensures forall e :: HasLane(lanes[..k] + [lane] + lanes[k..], e) ==> e == lane.endpoint || HasLane(lanes, e)
  {
    var l := lanes[..k] + [lane] + lanes[k..];
    assert forall i :: 0 <= i < |l| ==> l[i] == if i < k then lanes[i] else if i == k then lane else lanes[i - 1];
    forall i, j | 0 <= i < j < |l| ensures l[i].endpoint != l[j].endpoint {
    }
  }

  lemma PostToQueue(lanes: seq<Lane>, r: Request, e: Endpoint)
    ensures QueueOf(PostTo(lanes, r), e) == if e == r.endpoint then QueueOf(lanes, e) + [r] else QueueOf(lanes, e)
  {
    AppendToQueue(lanes, r, e);
    if !HasLane(lanes, r.endpoint) {
      InsertLaneQueue(lanes, r, e);
      QueueOfAbsent(lanes, r.endpoint);
    }
  }

  lemma {:induction false} CleanedQueue(lanes: seq<Lane>, done: set<Request>, e: Endpoint)
    ensures QueueOf(Cleaned(lanes, done), e) == Without(QueueOf(lanes, e), done)
  {
    if lanes != [] {
      CleanedQueue(lanes[1..], done, e);
      assert Cleaned(lanes, done)[1..] == Cleaned(lanes[1..], done);
    }
  }

  lemma {:induction false} CleanedLanes(lanes: seq<Lane>, done: set<Request>)
    ensures forall i :: 0 <= i < |lanes| ==> Cleaned(lanes, done)[i].endpoint == lanes[i].endpoint
  {
    if lanes != [] {
      CleanedLanes(lanes[1..], done);
    }
  }

  /** Removing the requests in `done` from a queue whose first `k` are exactly those. */
  lemma {:induction false} WithoutFront(q: seq<Request>, done: set<Request>, k: nat)
    requires k <= |q|
    requires forall i :: 0 <= i < |q| ==> (q[i] in done <==> i < k)
    ensures Without(q, done) == q[k..]
  {
    if q != [] {
      WithoutFront(q[1..], done, if k > 0 then k - 1 else 0);
    }
  }

  lemma OfAppend(rs: seq<Request>, r: Request, e: Endpoint)
    ensures Of(rs + [r], e) == Of(rs, e) + (if r.endpoint == e then [r] else [])
  {
    assert (rs + [r])[..|rs|] == rs;
  }

  lemma {:induction false} OfIndices(rs: seq<Request>, e: Endpoint)
    ensures forall i :: 0 <= i < |Of(rs, e)| ==> Of(rs, e)[i] in rs && Of(rs, e)[i].endpoint == e
    ensures forall r :: r in rs && r.endpoint == e ==> r in Of(rs, e)
    ensures Distinct(rs) ==> Distinct(Of(rs, e))
  {
    if rs != [] {
      var front, last := rs[..|rs| - 1], rs[|rs| - 1];
      OfIndices(front, e);
      assert rs == front + [last];
      assert Of(rs, e) == Of(front, e) + (if last.endpoint == e then [last] else []);
      hide Of;
      assert forall r :: r in rs <==> r in front || r == last;
      if Distinct(rs) {
        LastIsNew(front, last);
        assert last !in Of(front, e);
      }
    }
  }

  lemma LastIsNew(front: seq<Request>, last: Request)
    requires Distinct(front + [last])
    ensures last !in front && Distinct(front)
  {
    var rs := front + [last];
    forall i | 0 <= i < |front| ensures front[i] != last {
      assert rs[i] == front[i] && rs[|front|] == last;
    }
    forall i, j | 0 <= i < j < |front| ensures front[i] != front[j] {
      assert rs[i] == front[i] && rs[j] == front[j];
    }
  }

  lemma LastReplyAppend(log: seq<Event>, ev: Event, e: Endpoint)
    ensures LastReply(log + [ev], e)
         == if ev.Replied? && ev.req.endpoint == e then Some(BucketOf(ev.reply, ev.at)) else LastReply(log, e)
  {
    assert (log + [ev])[..|log|] == log;
  }

  lemma {:induction false} ScheduleLast(ds: seq<Deletion>, d: Deletion)
    requires forall i :: 0 <= i < |ds| ==> ds[i].due <= d.due
    ensures Schedule(ds, d) == ds + [d]
  {
    if ds != [] {
      ScheduleLast(ds[1..], d);
    }
  }

  // ---------- Each step keeps the invariant ----------

  lemma PostKeeps(s: State, r: Request)
    requires Inv(s) && Enabled(s, Post(r))
    ensures Inv(Act(s, Post(r)))
  {
    hide ViewOk, Of, HashFrom;
    var s' := Act(s, Post(r));
    PostToLanes(s.workers[Route(r.endpoint, |s.workers|)].requestsIn, r);
    forall e ensures ViewOk(ViewOf(s', e), s'.completed, e) {
      PostView(s, r, e);
    }
  }

  lemma PostView(s: State, r: Request, e: Endpoint)
    requires Enabled(s, Post(r)) && ViewOk(ViewOf(s, e), s.completed, e)
    ensures ViewOk(ViewOf(Act(s, Post(r)), e), s.completed, e)
  {
    hide ViewOk, HashFrom, Of, QueueOf, LastReply, PostTo;
    var v, v' := ViewOf(s, e), ViewOf(Act(s, Post(r)), e);
    assert v' == if e == r.endpoint then v.(held := v.held + [r], posted := v.posted + [r]) else v by {
      PostToQueue(s.workers[Route(r.endpoint, |s.workers|)].requestsIn, r, e);
      OfAppend(s.posted, r, e);
    }
    PostedOk(v, r, s.completed, e);
  }

  lemma PostedOk(v: View, r: Request, done: set<Request>, e: Endpoint)
    requires ViewOk(v, done, e)
    ensures ViewOk(v.(held := v.held + [r], posted := v.posted + [r]), done, e)
  {
  }

  lemma SnapshotKeeps(s: State, w: nat)
    requires Inv(s) && Enabled(s, Snapshot(w))
    ensures Inv(Act(s, Snapshot(w)))
  {
    var s' := Act(s, Snapshot(w));
    forall e ensures ViewOk(ViewOf(s', e), s'.completed, e) {
      var v, v' := ViewOf(s, e), ViewOf(s', e);
      assert v' == if Route(e, |s.workers|) == w then v.(copy := v.held, stage := InPass) else v;
      if Route(e, |s.workers|) == w {
        SnapshotOk(v, s.completed, e);
      }
    }
  }

  lemma SnapshotOk(v: View, done: set<Request>, e: Endpoint)
    requires ViewOk(v, done, e) && v.stage.AtRest?
    ensures ViewOk(v.(copy := v.held, stage := InPass), done, e)
  {
  }

  /** Dropping the head of the copy, or the first request of its head, leaves a part of it. */
  lemma TailLanes(copy: seq<Lane>, e: Endpoint)
    requires copy != [] && UniqueLanes(copy)
    ensures UniqueLanes(copy[1..])
    ensures forall x :: HasLane(copy[1..], x) ==> HasLane(copy, x)
    ensures QueueOf(copy[1..], e) == if e == copy[0].endpoint then [] else QueueOf(copy, e)
  {
    forall x | HasLane(copy[1..], x) ensures HasLane(copy, x) {
      var i :| 0 <= i < |copy[1..]| && copy[1..][i].endpoint == x;
      assert copy[i + 1].endpoint == x;
    }
    if e == copy[0].endpoint {
      assert !HasLane(copy[1..], e);
      QueueOfAbsent(copy[1..], e);
    }
  }

  lemma SkipKeeps(s: State, w: nat)
    requires Inv(s) && Enabled(s, Take(w))
    requires var wk := s.workers[w];
      TakeNext(s, w) == s.(workers := s.workers[w := wk.(phase := Scanning(wk.phase.copy[1..]))])
    ensures Inv(TakeNext(s, w))
  {
    hide TakeNext, HashFrom, Of, LastReply, QueueOf, ViewOk;
    var s' := TakeNext(s, w);
    var copy := s.workers[w].phase.copy;
    TailLanes(copy, copy[0].endpoint);
    forall e ensures ViewOk(ViewOf(s', e), s'.completed, e) {
      ViewAt(s, e);
      TailLanes(copy, e);
      var v, v' := ViewOf(s, e), ViewOf(s', e);
      SkippedOk(v, s.completed, e);
      assert v' == if Route(e, |s.workers|) == w && e == copy[0].endpoint then v.(copy := []) else v;
    }
  }

  lemma SkippedOk(v: View, done: set<Request>, e: Endpoint)
    requires ViewOk(v, done, e)
    ensures ViewOk(v.(copy := []), done, e)
  {
  }

  lemma SendLanes(copy: seq<Lane>, e: Endpoint)
    requires copy != [] && UniqueLanes(copy) && copy[0].queue != []
    ensures var c := [Lane(copy[0].endpoint, copy[0].queue[1..])] + copy[1..];
      && UniqueLanes(c)
      && (forall x :: HasLane(c, x) ==> HasLane(copy, x))
      && QueueOf(c, e) == if e == copy[0].endpoint then QueueOf(copy, e)[1..] else QueueOf(copy, e)
    ensures HasLane(copy, copy[0].endpoint) && QueueOf(copy, copy[0].endpoint) == copy[0].queue
  {
    var c := [Lane(copy[0].endpoint, copy[0].queue[1..])] + copy[1..];
    forall x | HasLane(c, x) ensures HasLane(copy, x) {
      var i :| 0 <= i < |c| && c[i].endpoint == x;
      assert copy[i].endpoint == x;
    }
    assert c[1..] == copy[1..];
  }

  lemma SendKeeps(s: State, w: nat)
    requires Inv(s) && Enabled(s, Take(w))
    requires s.workers[w].phase.copy[0].queue != []
    requires MaySend(Find(s.workers[w].buckets, s.workers[w].phase.copy[0].endpoint), s.clock)
    ensures Inv(TakeNext(s, w))
  {
    hide ViewOk, Of, HashFrom, QueueOf;
    var s' := TakeNext(s, w);
    var copy := s.workers[w].phase.copy;
    var r := copy[0].queue[0];
    SendLanes(copy, r.endpoint);
    HeadIsOfItsLane(s, w);
    assert s'.log[..|s.log|] == s.log;
    forall e ensures ViewOk(ViewOf(s', e), s'.completed, e) {
      SendView(s, w, r, e);
    }
  }

  lemma HeadIsOfItsLane(s: State, w: nat)
    requires Workers(s) && Views(s) && Enabled(s, Take(w)) && s.workers[w].phase.copy[0].queue != []
    ensures var e := s.workers[w].phase.copy[0].endpoint;
      s.workers[w].phase.copy[0].queue[0].endpoint == e && Find(s.workers[w].buckets, e) == LastReply(s.log, e)
  {
    hide HashFrom, QueueOf, Of, LastReply, ViewOk, Views;
    var copy := s.workers[w].phase.copy;
    var e := copy[0].endpoint;
    SendLanes(copy, e);
    var v := ViewOf(s, e);
    ViewAt(s, e);
    OfIndices(s.posted, e);
    CopyIsPosted(v, s.completed, e);
    assert HasLane(CopyOf(s.workers[w].phase), e);
  }

  lemma ViewAt(s: State, e: Endpoint)
    requires |s.workers| > 0 && Views(s)
    ensures ViewOk(ViewOf(s, e), s.completed, e)
  {
    hide ViewOk;
  }

  lemma CopyIsPosted(v: View, done: set<Request>, e: Endpoint)
    requires ViewOk(v, done, e)
    ensures v.copy != [] ==> v.copy[0] in v.posted && |v.ran| < |v.posted| && v.copy[0] == v.posted[|v.ran|]
    ensures v.bucket == v.lastReply
  {
  }

  lemma SendView(s: State, w: nat, r: Request, e: Endpoint)
    requires Workers(s) && Enabled(s, Take(w)) && ViewOk(ViewOf(s, e), s.completed, e)
    requires var lane := s.workers[w].phase.copy[0];
      lane.queue != [] && lane.queue[0] == r && r.endpoint == lane.endpoint && MaySend(Find(s.workers[w].buckets, lane.endpoint), s.clock)
    ensures ViewOk(ViewOf(TakeNext(s, w), e), s.completed, e)
  {
    hide ViewOk, HashFrom, Of, LastReply;
    var v, v' := ViewOf(s, e), ViewOf(TakeNext(s, w), e);
    SendLanes(s.workers[w].phase.copy, e);
    assert e == r.endpoint ==> v.copy != [] && v.copy[0] == r;
    assert v' == if e == r.endpoint then v.(copy := v.copy[1..], stage := OnWire(r), ran := v.ran + [r]) else v by {
      OfAppend(s.ran, r, e);
      LastReplyAppend(s.log, Sent(r, s.clock), e);
    }
    if e == r.endpoint {
      SentOk(v, r, s.completed, e);
    }
  }

  lemma SentOk(v: View, r: Request, done: set<Request>, e: Endpoint)
    requires ViewOk(v, done, e) && v.stage.InPass? && v.copy != [] && v.copy[0] == r
    ensures ViewOk(v.(copy := v.copy[1..], stage := OnWire(r), ran := v.ran + [r]), done, e)
  {
    assert v.copy[0] == v.posted[|v.ran|];
  }

  lemma ReceiveKeeps(s: State, w: nat, reply: Reply)
    requires Inv(s) && Enabled(s, Receive(w, reply))
    ensures Inv(Act(s, Receive(w, reply)))
  {
    hide ViewOk, HashFrom, Of, QueueOf, LastReply, Queues, WorkerOk;
    ReceiveWorkers(s, w, reply);
    ReceiveQueues(s, w, reply);
    forall e ensures ViewOk(ViewOf(Act(s, Receive(w, reply)), e), s.completed + {s.workers[w].phase.req}, e) {
      ViewAt(s, e);
      ReceiveView(s, w, reply, e);
    }
  }

  lemma ReceiveWorkers(s: State, w: nat, reply: Reply)
    requires Workers(s) && Enabled(s, Receive(w, reply))
    ensures Workers(Act(s, Receive(w, reply)))
  {
    hide HashFrom;
  }

  lemma ReceiveQueues(s: State, w: nat, reply: Reply)
    requires Queues(s) && Enabled(s, Receive(w, reply))
    ensures Queues(Act(s, Receive(w, reply)))
  {
    hide Distinct, LastReply;
    SpacedMore(s.log, [Replied(s.workers[w].phase.req, s.clock, reply)]);
  }

  lemma ReceiveView(s: State, w: nat, reply: Reply, e: Endpoint)
    requires Workers(s) && Enabled(s, Receive(w, reply)) && ViewOk(ViewOf(s, e), s.completed, e)
    ensures ViewOk(ViewOf(Act(s, Receive(w, reply)), e), s.completed + {s.workers[w].phase.req}, e)
  {
    hide ViewOk, HashFrom, Of, LastReply, QueueOf;
    var v, v' := ViewOf(s, e), ViewOf(Act(s, Receive(w, reply)), e);
    var r := s.workers[w].phase.req;
    var b := Some(BucketOf(reply, s.clock));
    assert v' == if e == r.endpoint then v.(stage := Answered(r), bucket := b, lastReply := b) else v by {
      LastReplyAppend(s.log, Replied(r, s.clock, reply), e);
    }
    ReceivedOk(v, r, b, s.completed, e);
  }

  lemma ReceivedOk(v: View, r: Request, b: Option<Bucket>, done: set<Request>, e: Endpoint)
    requires ViewOk(v, done, e) && (r.endpoint == e ==> v.stage == OnWire(r))
    ensures r.endpoint == e ==> ViewOk(v.(stage := Answered(r), bucket := b, lastReply := b), done + {r}, e)
    ensures r.endpoint != e ==> ViewOk(v, done + {r}, e)
  {
    if r.endpoint == e {
      assert |v.ran| > 0 && v.ran[|v.ran| - 1] == r;
      var v' := v.(stage := Answered(r), bucket := b, lastReply := b);
      assert Shape(v') by { hide Done; }
      hide Shape;
      assert Done(v', done + {r}, e);
    } else {
      hide Shape;
      assert Done(v, done + {r}, e);
    }
  }

  lemma PublishKeeps(s: State, w: nat)
    requires Inv(s) && Enabled(s, Publish(w))
    ensures Inv(Act(s, Publish(w)))
  {
    hide ViewOk, Of, HashFrom;
    var s' := Act(s, Publish(w));
    AnsweredCompleted(s, w);
    forall e ensures ViewOk(ViewOf(s', e), s'.completed, e) {
      PublishView(s, w, e);
    }
  }

  lemma AnsweredCompleted(s: State, w: nat)
    requires Workers(s) && Views(s) && Enabled(s, Publish(w))
    ensures s.workers[w].phase.req in s.completed
  {
    hide HashFrom, Of, QueueOf;
    var v := ViewOf(s, s.workers[w].phase.req.endpoint);
    assert v.ran[|v.ran| - 1] in s.completed;
  }

  lemma PublishView(s: State, w: nat, e: Endpoint)
    requires Workers(s) && Enabled(s, Publish(w)) && ViewOk(ViewOf(s, e), s.completed, e)
    ensures ViewOk(ViewOf(Act(s, Publish(w)), e), s.completed, e)
  {
    hide ViewOk, HashFrom, Of, LastReply, QueueOf;
    var v, v' := ViewOf(s, e), ViewOf(Act(s, Publish(w)), e);
    var r := s.workers[w].phase.req;
    assert v' == if e == r.endpoint then v.(stage := InPass, out := v.out + [r]) else v by {
      OfAppend(s.handled + s.responsesOut, r, e);
      Append(s.handled, s.responsesOut, [r]);
    }
    if e == r.endpoint {
      PublishedOk(v, r, s.completed, e);
    }
  }

  lemma PublishedOk(v: View, r: Request, done: set<Request>, e: Endpoint)
    requires ViewOk(v, done, e) && v.stage == Answered(r)
    ensures ViewOk(v.(stage := InPass, out := v.out + [r]), done, e)
  {
  }

  lemma CleanKeeps(s: State, w: nat)
    requires Inv(s) && Enabled(s, Clean(w))
    ensures Inv(Act(s, Clean(w)))
  {
    hide ViewOk, Of, HashFrom, LastReply;
    var s' := Act(s, Clean(w));
    assert s'.log[..|s.log|] == s.log;
    CleanWorker(s.workers[w], w, |s.workers|, s.completed);
    forall e ensures ViewOk(ViewOf(s', e), s'.completed, e) {
      CleanView(s, w, e);
    }
  }

  lemma CleanWorker(wk: Worker, w: nat, poolSize: nat, done: set<Request>)
    requires poolSize > 0 && WorkerOk(wk, w, poolSize)
    ensures WorkerOk(wk.(requestsIn := Cleaned(wk.requestsIn, done), phase := Idle), w, poolSize)
  {
    var lanes := Cleaned(wk.requestsIn, done);
    CleanedLanes(wk.requestsIn, done);
    forall e | HasLane(lanes, e) ensures HasLane(wk.requestsIn, e) {
      var i :| 0 <= i < |lanes| && lanes[i].endpoint == e;
      assert wk.requestsIn[i].endpoint == e;
    }
  }

  lemma CleanView(s: State, w: nat, e: Endpoint)
    requires |s.workers| > 0 && Distinct(s.posted) && ViewOk(ViewOf(s, e), s.completed, e) && Enabled(s, Clean(w))
    ensures ViewOk(ViewOf(Act(s, Clean(w)), e), s.completed, e)
  {
    hide HashFrom, Of, QueueOf, LastReply, Cleaned, ViewOk, WorkerOk;
    var v, v' := ViewOf(s, e), ViewOf(Act(s, Clean(w)), e);
    LastReplyAppend(s.log, CleanedUp(w), e);
    if Route(e, |s.workers|) == w {
      QueueOfAbsent([], e);
      CleanedQueue(s.workers[w].requestsIn, s.completed, e);
      OfIndices(s.posted, e);
      CompletedFirst(v, s.completed, e);
      assert v' == v.(held := v.posted[|v.ran|..], stage := AtRest);
      CleanedOk(v, s.completed, e);
    } else {
      assert v' == v;
    }
  }

  lemma CleanedOk(v: View, done: set<Request>, e: Endpoint)
    requires ViewOk(v, done, e) && v.stage.InPass? && v.copy == []
    ensures ViewOk(v.(held := v.posted[|v.ran|..], stage := AtRest), done, e)
  {
  }

  /** The completed requests a worker holds are the first ones: those it has sent. */
  lemma CompletedFirst(v: View, done: set<Request>, e: Endpoint)
    requires ViewOk(v, done, e) && v.stage.InPass? && Distinct(v.posted)
    requires forall i :: 0 <= i < |v.posted| ==> v.posted[i].endpoint == e
    ensures |v.ran| <= |v.posted| && Without(v.held, done) == v.posted[|v.ran|..]
  {
    FrontRemoved(v.posted, |v.posted| - |v.held|, |v.ran|, done);
  }

  /** Removing exactly the first `n` posted requests from the queue that holds all but `gone` of them. */
  lemma FrontRemoved(posted: seq<Request>, gone: nat, n: nat, done: set<Request>)
    requires gone <= n <= |posted| && Distinct(posted)
    requires forall i :: 0 <= i < |posted| ==> (posted[i] in done <==> posted[i] in posted[..n])
    ensures Without(posted[gone..], done) == posted[n..]
  {
    var held := posted[gone..];
    forall i | 0 <= i < |held| ensures held[i] in done <==> i < n - gone {
      assert held[i] == posted[gone + i];
      if i < n - gone {
        assert posted[..n][gone + i] == held[i];
      }
    }
    WithoutFront(held, done, n - gone);
  }

  lemma OutPassKeeps(s: State)
    requires Inv(s) && Enabled(s, OutPass)
    ensures Inv(Act(s, OutPass))
  {
    hide ViewOk, Of, HashFrom, LastReply, QueueOf, Queues, WorkerOk;
    OutPassQueues(s);
    forall e ensures ViewOk(ViewOf(Act(s, OutPass), e), s.completed, e) {
      ViewAt(s, e);
      OutPassView(s, e);
    }
  }

  lemma OutPassView(s: State, e: Endpoint)
    requires |s.workers| > 0 && Queues(s) && Enabled(s, OutPass)
    ensures ViewOf(Act(s, OutPass), e) == ViewOf(s, e)
  {
    hide Of, HashFrom, LastReply, QueueOf, Queues;
    OutPassQueues(s);
    if s.responsesOut != [] {
      LastReplyAppend(s.log, Handled(s.responsesOut[0], s.clock), e);
    }
  }

  /** What moves from the finished requests to those waiting for deletion. */
  function Popped(s: State): seq<Request> {
    if s.responsesOut == [] then [] else s.responsesOut[..1]
  }

  /** What a turn of the completion thread changes. */
  lemma OutPassIs(s: State)
    requires Enabled(s, OutPass) && forall r :: r in s.responsesOut ==> r in s.completed
    ensures var t, popped := Act(s, OutPass), Popped(s);
      var waiting := Scheduled(s.toDelete, popped, s.clock);
      && t.posted == s.posted && t.completed == s.completed && t.clock == s.clock && t.ran == s.ran
      && t.workers == s.workers && t.failed == s.failed
      && t.responsesOut == s.responsesOut[|popped|..] && popped + t.responsesOut == s.responsesOut
      && t.handled == s.handled + popped
      && t.toDelete == waiting[DueCount(waiting, s.clock)..]
      && t.deleted == s.deleted + Requests(waiting[..DueCount(waiting, s.clock)])
      && t.log == s.log + if popped == [] then [] else [Handled(popped[0], s.clock)]
  {
    hide Scheduled, DueCount;
    assert s.log + [] == s.log;
    assert Fired(Popped(s), s.completed) == Popped(s);
  }

  lemma OutPassQueues(s: State)
    requires Queues(s) && Enabled(s, OutPass)
    ensures Queues(Act(s, OutPass))
    ensures var t := Act(s, OutPass);
      && t.handled + t.responsesOut == s.handled + s.responsesOut
      && t.handled == s.handled + Popped(s)
      && t.log == s.log + if s.responsesOut == [] then [] else [Handled(s.responsesOut[0], s.clock)]
  {
    hide Act, Scheduled, DueCount, Requests, Distinct, Spaced;
    OutPassIs(s);
    var popped := Popped(s);
    var waiting := Scheduled(s.toDelete, popped, s.clock);
    var n := DueCount(waiting, s.clock);
    PoppedIs(s);
    ScheduledKeeps(s.toDelete, popped, s.clock);
    DeletedMove(s.deleted, s.toDelete, popped, waiting, n);
    SpacedMore(s.log, if popped == [] then [] else [Handled(popped[0], s.clock)]);
    LaterOk(s, Act(s, OutPass), waiting, n);
  }

  lemma PoppedIs(s: State)
    ensures var popped := Popped(s);
      && |popped| <= 1 && popped + s.responsesOut[|popped|..] == s.responsesOut
      && s.handled + popped + s.responsesOut[|popped|..] == s.handled + s.responsesOut
      && (if s.responsesOut == [] then popped == [] else popped == [s.responsesOut[0]])
  {
    Append(s.handled, Popped(s), s.responsesOut[|Popped(s)|..]);
  }

  lemma LaterOk(s: State, t: State, waiting: seq<Deletion>, n: nat)
    requires Queues(s) && t.posted == s.posted && t.completed == s.completed && t.clock == s.clock && Spaced(t.log)
    requires |Popped(s)| <= |s.responsesOut| && t.responsesOut == s.responsesOut[|Popped(s)|..]
    requires t.handled == t.deleted + Requests(t.toDelete)
    requires n <= |waiting| && t.toDelete == waiting[n..] && forall i :: 0 <= i < |waiting| ==> waiting[i].due <= s.clock + 60
    ensures Queues(t)
  {
    hide Distinct, Spaced, Requests, Popped;
  }

  lemma DeletedMove(deleted: seq<Request>, toDelete: seq<Deletion>, popped: seq<Request>, waiting: seq<Deletion>, n: nat)
    requires Requests(waiting) == Requests(toDelete) + popped && n <= |waiting|
    ensures (deleted + Requests(toDelete)) + popped == (deleted + Requests(waiting[..n])) + Requests(waiting[n..])
  {
    assert Requests(waiting) == Requests(waiting[..n]) + Requests(waiting[n..]);
    Append(deleted, Requests(toDelete), popped);
    Append(deleted, Requests(waiting[..n]), Requests(waiting[n..]));
  }

  lemma SpacedMore(log: seq<Event>, more: seq<Event>)
    requires Spaced(log) && |more| <= 1 && (more != [] ==> !more[0].Sent?)
    ensures Spaced(log + more)
  {
    if more == [] {
      assert log + more == log;
    } else {
      assert (log + more)[..|log|] == log;
    }
  }

  lemma ScheduledKeeps(ds: seq<Deletion>, popped: seq<Request>, now: nat)
    requires |popped| <= 1 && forall i :: 0 <= i < |ds| ==> ds[i].due <= now + 60
    ensures Requests(Scheduled(ds, popped, now)) == Requests(ds) + popped
    ensures forall i :: 0 <= i < |Scheduled(ds, popped, now)| ==> Scheduled(ds, popped, now)[i].due <= now + 60
  {
    if popped != [] {
      ScheduleLast(ds, Deletion(now + 60, popped[0]));
    }
  }

  lemma QuietKeeps(s: State, step: Step)
    requires Inv(s) && Enabled(s, step) && (step.Unlimit? || step.Tick?)
    ensures Inv(Act(s, step))
  {
    hide ViewOk, Of, HashFrom, LastReply;
    var s' := Act(s, step);
    forall e ensures ViewOk(ViewOf(s', e), s'.completed, e) {
      assert ViewOf(s', e) == ViewOf(s, e);
    }
  }

  lemma StepKeeps(s: State, step: Step)
    requires Inv(s) && Enabled(s, step)
    ensures Inv(Act(s, step))
  {
    match step
    case Post(r) => PostKeeps(s, r);
    case Snapshot(w) => SnapshotKeeps(s, w);
    case Take(w) =>
      var lane := s.workers[w].phase.copy[0];
      if lane.queue != [] && MaySend(Find(s.workers[w].buckets, lane.endpoint), s.clock) {
        SendKeeps(s, w);
      } else {
        SkipKeeps(s, w);
      }
    case Receive(w, reply) => ReceiveKeeps(s, w, reply);
    case Publish(w) => PublishKeeps(s, w);
    case Clean(w) => CleanKeeps(s, w);
    case OutPass => OutPassKeeps(s);
    case _ => QuietKeeps(s, step);
  }

  lemma FailureKeeps(s: State)
    requires Inv(s)
    ensures Inv(s.(failed := true))
  {
    hide ViewOk, Of, HashFrom, LastReply, QueueOf;
    var s' := s.(failed := true);
    forall e ensures ViewOk(ViewOf(s', e), s'.completed, e) {
      ViewAt(s, e);
      assert ViewOf(s', e) == ViewOf(s, e);
    }
  }

  lemma InitialInv(poolSize: nat, clock: nat)
    requires poolSize > 0
    ensures Inv(Initial(poolSize, clock))
  {
    hide HashFrom, ViewOk;
    var s := Initial(poolSize, clock);
    EmptyViewOk(s.completed);
    forall e ensures ViewOk(ViewOf(s, e), s.completed, e) {
      assert ViewOf(s, e) == View([], [], AtRest, [], [], [], None, None);
    }
  }

  lemma EmptyViewOk(done: set<Request>)
    requires done == {}
    ensures forall e :: ViewOk(View([], [], AtRest, [], [], [], None, None), done, e)
  {
  }

  lemma {:induction false} RunKeeps(s: State, steps: seq<Step>)
    requires Inv(s) && IsRun(s, steps)
    ensures Inv(After(s, steps))
    decreases |steps|
  {
    if steps != [] {
      if Fails(s, steps[0]) {
        FailureKeeps(s);
      } else {
        StepKeeps(s, steps[0]);
      }
      RunKeeps(Next(s, steps[0]), steps[1..]);
    }
  }

  // ---------- What every run satisfies ----------

  /** The state after some run from the empty queue. */
  ghost predicate Reachable(s: State) {
    exists poolSize: nat, clock: nat, steps ::
      poolSize > 0 && IsRun(Initial(poolSize, clock), steps) && s == After(Initial(poolSize, clock), steps)
  }

  lemma ReachableInv(s: State)
    requires Reachable(s)
    ensures Inv(s)
  {
    var poolSize: nat, clock: nat, steps :|
      poolSize > 0 && IsRun(Initial(poolSize, clock), steps) && s == After(Initial(poolSize, clock), steps);
    InitialInv(poolSize, clock);
    RunKeeps(Initial(poolSize, clock), steps);
  }

  /** Per endpoint, what was sent followed by what is pending is what was posted, in order. */
  lemma SentInPostingOrder(s: State, e: Endpoint)
    requires Reachable(s)
    ensures |s.workers| > 0 && Of(s.ran, e) + Pending(s, e) == Of(s.posted, e)
  {
    ReachableInv(s);
    var v := ViewOf(s, e);
    assert ViewOk(v, s.completed, e);
    OfIndices(s.posted, e);
    OfIndices(s.ran, e);
    SentFirst(v, s.completed, e, set r | r in s.ran);
  }

  lemma SentFirst(v: View, completed: set<Request>, e: Endpoint, sent: set<Request>)
    requires ViewOk(v, completed, e) && Distinct(v.posted)
    requires forall i :: 0 <= i < |v.posted| ==> v.posted[i].endpoint == e
    requires forall r: Request :: r.endpoint == e ==> (r in sent <==> r in v.ran)
    ensures v.ran + Without(v.held, sent) == v.posted
  {
    hide Done, Without, Distinct;
    FrontRemoved(v.posted, |v.posted| - |v.held|, |v.ran|, sent);
  }

  /** Per endpoint, the handlers called so far are those of the first requests sent, in that order. */
  lemma HandledInPostingOrder(s: State, e: Endpoint)
    requires Reachable(s)
    ensures Of(s.handled, e) <= Of(s.ran, e) <= Of(s.posted, e)
    ensures forall r :: r in s.handled ==> r in s.completed
  {
    ReachableInv(s);
    HandledFront(s, e);
    forall r | r in s.handled ensures r in s.completed {
      HandledCompleted(s, r);
    }
  }

  lemma HandledFront(s: State, e: Endpoint)
    requires Inv(s)
    ensures Of(s.handled, e) <= Of(s.ran, e) <= Of(s.posted, e)
  {
    hide HashFrom, QueueOf;
    var v := ViewOf(s, e);
    assert ViewOk(v, s.completed, e);
    OfConcat(s.handled, s.responsesOut, e);
    assert v.out <= v.ran;
  }

  lemma HandledCompleted(s: State, r: Request)
    requires Inv(s) && r in s.handled
    ensures r in s.completed
  {
    hide HashFrom, QueueOf, LastReply;
    var v := ViewOf(s, r.endpoint);
    assert ViewOk(v, s.completed, r.endpoint);
    OfConcat(s.handled, s.responsesOut, r.endpoint);
    OfIndices(s.handled, r.endpoint);
    var i :| 0 <= i < |Of(s.handled, r.endpoint)| && Of(s.handled, r.endpoint)[i] == r;
    assert v.out[i] == r && v.ran[i] == r;
  }

  lemma {:induction false} OfConcat(a: seq<Request>, b: seq<Request>, e: Endpoint)
    ensures Of(a + b, e) == Of(a, e) + Of(b, e)
  {
    if b == [] {
      assert a + b == a;
    } else {
      var front, last := b[..|b| - 1], b[|b| - 1];
      OfConcat(a, front, e);
      assert a + b == (a + front) + [last];
      OfAppend(a + front, last, e);
    }
  }

  /** A sequence whose part for every endpoint repeats nothing repeats nothing. */
  lemma DistinctParts(rs: seq<Request>)
    requires forall e :: Distinct(Of(rs, e))
    ensures Distinct(rs)
  {
    forall i, j | 0 <= i < j < |rs| ensures rs[i] != rs[j] {
      assert Distinct(Of(rs, rs[i].endpoint));
      if rs[i] == rs[j] {
        TwoPlaces(rs, i, j);
      }
    }
  }

  lemma TwoPlaces(rs: seq<Request>, i: nat, j: nat)
    requires i < j < |rs| && rs[i] == rs[j]
    ensures var e := rs[i].endpoint;
      && |Of(rs[..i], e)| < |Of(rs[..j], e)| < |Of(rs, e)|
      && Of(rs, e)[|Of(rs[..i], e)|] == rs[i] && Of(rs, e)[|Of(rs[..j], e)|] == rs[j]
  {
    var e := rs[i].endpoint;
    Place(rs, i, e);
    Place(rs, j, e);
    OfAppend(rs[..i], rs[i], e);
    assert rs[..j] == rs[..i] + [rs[i]] + rs[i + 1..j];
    OfConcat(rs[..i] + [rs[i]], rs[i + 1..j], e);
  }

  lemma Place(rs: seq<Request>, i: nat, e: Endpoint)
    requires i < |rs| && rs[i].endpoint == e
    ensures |Of(rs[..i], e)| < |Of(rs, e)| && Of(rs, e)[|Of(rs[..i], e)|] == rs[i]
  {
    assert rs == rs[..i] + [rs[i]] + rs[i + 1..];
    OfConcat(rs[..i] + [rs[i]], rs[i + 1..], e);
    OfAppend(rs[..i], rs[i], e);
  }

  /** No request is sent twice and no handler fires twice; each deletion follows its handler. */
  lemma AtMostOnce(s: State)
    requires Reachable(s)
    ensures Distinct(s.ran) && Distinct(s.handled) && s.deleted <= s.handled
    ensures forall r :: r in s.ran ==> r in s.posted
  {
    ReachableInv(s);
    forall e ensures Distinct(Of(s.ran, e)) && Distinct(Of(s.handled, e)) {
      SentInPostingOrder(s, e);
      HandledInPostingOrder(s, e);
      OfIndices(s.posted, e);
      assert Distinct(Of(s.posted, e));
    }
    DistinctParts(s.ran);
    DistinctParts(s.handled);
    forall r | r in s.ran ensures r in s.posted {
      SentInPostingOrder(s, r.endpoint);
      OfIndices(s.ran, r.endpoint);
      OfIndices(s.posted, r.endpoint);
      assert r in Of(s.posted, r.endpoint);
    }
  }

  /**
   After a reply with nothing remaining, the next send on that endpoint is strictly later than the
   reply's time plus what it said to wait: its retry-after, or its reset-after where there is none.
   The sum wraps at 64 bits.
   */
  lemma SendsRespectLimits(s: State, i: nat, j: nat)
    requires Reachable(s)
    requires i < j < |s.log| && s.log[i].Replied? && s.log[j].Sent?
    requires s.log[i].req.endpoint == s.log[j].req.endpoint
    requires forall k :: i < k < j && s.log[k].Replied? ==> s.log[k].req.endpoint != s.log[j].req.endpoint
    requires s.log[i].reply.remaining == 0
    ensures var reply := s.log[i].reply;
      var due := s.log[i].at + if reply.retryAfter != 0 then reply.retryAfter else reply.resetAfter;
      s.log[j].at > due % TWO_64 && (due < TWO_64 ==> s.log[j].at > due)
  {
    ReachableInv(s);
    SpacedAt(s.log, j);
    LastReplyIs(s.log[..j], i, s.log[j].req.endpoint);
  }

  lemma {:induction false} SpacedAt(log: seq<Event>, j: nat)
    requires Spaced(log) && j < |log| && log[j].Sent?
    ensures MaySend(LastReply(log[..j], log[j].req.endpoint), log[j].at)
  {
    if j < |log| - 1 {
      SpacedAt(log[..|log| - 1], j);
      assert log[..|log| - 1][..j] == log[..j];
    }
  }

  lemma {:induction false} LastReplyIs(log: seq<Event>, i: nat, e: Endpoint)
    requires i < |log| && log[i].Replied? && log[i].req.endpoint == e
    requires forall k :: i < k < |log| && log[k].Replied? ==> log[k].req.endpoint != e
    ensures LastReply(log, e) == Some(BucketOf(log[i].reply, log[i].at))
  {
    if i < |log| - 1 {
      LastReplyIs(log[..|log| - 1], i, e);
    }
  }

  /** A bucket holds a request back just when the reply left nothing remaining and its wait, in 64 bits, is not over. */
  lemma HeldBackExactly(reply: Reply, at: nat, now: nat)
    ensures MaySend(None, now)
    ensures !MaySend(Some(BucketOf(reply, at)), now) <==>
      reply.remaining == 0 && now <= (at + if reply.retryAfter != 0 then reply.retryAfter else reply.resetAfter) % TWO_64
  {
  }

  /** A reply with nothing remaining is obeyed at every time of day just when the sum does not wrap at 64 bits. */
  lemma WaitKeptExactly(reply: Reply, at: word64)
    requires reply.remaining == 0
    ensures var due := at + if reply.retryAfter != 0 then reply.retryAfter else reply.resetAfter;
      (forall now: word64 :: MaySend(Some(BucketOf(reply, at)), now) ==> now > due) <==> due < TWO_64
  {
    var b := BucketOf(reply, at);
    var due := at + if reply.retryAfter != 0 then reply.retryAfter else reply.resetAfter;
    if due < TWO_64 {
      assert Due(b) == due;
    } else {
      assert Due(b) == due - TWO_64;
      var now: word64 := Due(b) + 1;
      assert MaySend(Some(b), now) && now <= due;
    }
  }

  /** The last reply on an endpoint. */
  predicate IsLastReply(log: seq<Event>, i: nat, e: Endpoint) {
    && i < |log| && log[i].Replied? && log[i].req.endpoint == e
    && forall k :: i < k < |log| && log[k].Replied? ==> log[k].req.endpoint != e
  }

  /** The last reply on the endpoint left nothing and said to wait longer. */
  predicate HeldBack(log: seq<Event>, now: nat, e: Endpoint) {
    exists i :: 0 <= i < |log| && IsLastReply(log, i, e) && log[i].reply.remaining == 0
      && now <= (log[i].at + if log[i].reply.retryAfter != 0 then log[i].reply.retryAfter else log[i].reply.resetAfter) % TWO_64
  }

  lemma {:induction false} LastReplyFound(log: seq<Event>, e: Endpoint) returns (i: nat)
    ensures if LastReply(log, e).None? then forall k :: 0 <= k < |log| && log[k].Replied? ==> log[k].req.endpoint != e
      else IsLastReply(log, i, e)
  {
    i := 0;
    if log != [] {
      var last := |log| - 1;
      if log[last].Replied? && log[last].req.endpoint == e {
        i := last;
      } else {
        i := LastReplyFound(log[..last], e);
      }
    }
  }

  lemma MaySendIs(log: seq<Event>, now: nat, e: Endpoint)
    ensures MaySend(LastReply(log, e), now) <==> !HeldBack(log, now, e)
  {
    var i := LastReplyFound(log, e);
    if LastReply(log, e).Some? {
      LastReplyIs(log, i, e);
      HeldBackExactly(log[i].reply, log[i].at, now);
      if j :| 0 <= j < |log| && IsLastReply(log, j, e) {
        assert j == i;
      }
    }
  }

  /**
   The next request of a pass is sent unless the last reply on its endpoint holds it back, and then
   the pass leaves the endpoint's other requests for later too.
   */
  lemma TakesUnlessHeldBack(s: State, w: nat)
    requires Reachable(s) && Enabled(s, Take(w)) && s.workers[w].phase.copy[0].queue != []
    ensures var copy, t := s.workers[w].phase.copy, Act(s, Take(w));
      var e, r, rest := copy[0].endpoint, copy[0].queue[0], copy[1..];
      && r.endpoint == e && |t.workers| == |s.workers|
      && if HeldBack(s.log, s.clock, e) then t.ran == s.ran && t.log == s.log && t.workers[w].phase == Scanning(rest)
         else t.ran == s.ran + [r] && t.log == s.log + [Sent(r, s.clock)]
              && t.workers[w].phase == Sending(r, [Lane(e, copy[0].queue[1..])] + rest)
  {
    hide Inv, HeldBack, Reachable, Due;
    ReachableInv(s);
    assert Workers(s) && Views(s) by { InvParts(s); }
    hide Workers, Views;
    HeadIsOfItsLane(s, w);
    MaySendIs(s.log, s.clock, s.workers[w].phase.copy[0].endpoint);
  }

  lemma InvParts(s: State)
    requires Inv(s)
    ensures Workers(s) && Views(s)
  {
    hide Workers, Views;
  }

  // ---------- The global limit ----------

  /** What the last reply says of the global limit, or that a worker has slept it off since; `limited` before any. */
  predicate LimitedAfter(limited: bool, steps: seq<Step>)
    decreases |steps|
  {
    if steps == [] then limited
    else LimitedAfter(if steps[0].Receive? then steps[0].reply.global else if steps[0].Unlimit? then false else limited, steps[1..])
  }

  /** All workers are held off just while the last reply of any worker was global and no worker has slept since. */
  lemma {:induction false} GlobalLimitExactly(s: State, steps: seq<Step>)
    requires IsRun(s, steps) && !After(s, steps).failed
    ensures After(s, steps).globallyRatelimited <==> LimitedAfter(s.globallyRatelimited, steps)
    decreases |steps|
  {
    hide Fails, Act;
    if steps != [] {
      var t := Next(s, steps[0]);
      if t.failed {
        FailedStays(t, steps[1..]);
      }
      GlobalLimitNext(s, steps[0]);
      GlobalLimitExactly(t, steps[1..]);
    }
  }

  lemma FailedStays(s: State, steps: seq<Step>)
    requires s.failed && IsRun(s, steps)
    ensures After(s, steps) == s
  {
  }

  /** No worker begins a pass under the limit; a global reply says how long to sleep, and only a worker that has slept or a reply lifts it. */
  lemma GlobalLimitNext(s: State, step: Step)
    requires Enabled(s, step)
    ensures step.Snapshot? ==> !s.globallyRatelimited
    ensures step.Unlimit? ==> s.globallyRatelimited
    ensures var t := Act(s, step);
      && (t.globallyRatelimited <==> if step.Receive? then step.reply.global else !step.Unlimit? && s.globallyRatelimited)
      && (t.globallyLimitedFor ==
            if step.Receive? && step.reply.global then
              if step.reply.retryAfter != 0 then step.reply.retryAfter else step.reply.resetAfter
            else if step.Unlimit? then 0 else s.globallyLimitedFor)
  {
  }

  /** A reply that is not global, from a worker already waiting for it, lifts the limit another was told of just before. */
  lemma LiftedByAnother(s: State, v: nat, w: nat, first: Reply, second: Reply)
    requires Enabled(s, Receive(v, first)) && Enabled(s, Receive(w, second)) && v != w && first.global && !second.global
    requires s.workers[v].phase.req !in s.deleted && s.workers[w].phase.req !in s.deleted
    ensures var steps := [Receive(v, first), Receive(w, second)];
      IsRun(s, steps) && Next(s, steps[0]).globallyRatelimited && !After(s, steps).globallyRatelimited
  {
    var one, two := Receive(v, first), Receive(w, second);
    var t := Next(s, one);
    assert t == Act(s, one);
    assert t.workers[w] == s.workers[w] && t.deleted == s.deleted;
    assert Next(t, two) == Act(t, two);
    assert [one, two][1..] == [two] && [two][1..] == [];
    assert After(t, [two]) == After(Act(t, two), []) == Act(t, two);
  }

  // ---------- Going on ----------

  predicate IsStepOf(step: Step, w: nat) {
    match step
    case Snapshot(v) => v == w
    case Take(v) => v == w
    case Receive(v, _) => v == w
    case Publish(v) => v == w
    case Clean(v) => v == w
    case Unlimit(v) => v == w
    case _ => false
  }

  ghost predicate CanGoOn(s: State, w: nat) {
    exists step :: IsStepOf(step, w) && Enabled(s, step)
  }

  /** As long as nothing has failed, a worker can always go on unless it is idle with no requests and no limit to sleep off. */
  lemma NeverStuck(s: State, w: nat)
    requires !s.failed && w < |s.workers|
    ensures CanGoOn(s, w) <==> !(s.workers[w].phase.Idle? && s.workers[w].requestsIn == [] && !s.globallyRatelimited)
  {
    match s.workers[w].phase
    case Idle =>
      var step := if s.globallyRatelimited then Unlimit(w) else Snapshot(w);
      assert IsStepOf(step, w);
      assert s.globallyRatelimited || s.workers[w].requestsIn != [] ==> Enabled(s, step);
    case Scanning(copy) =>
      var step := if copy == [] then Clean(w) else Take(w);
      assert IsStepOf(step, w) && Enabled(s, step);
    case Sending(_, _) =>
      var step := Receive(w, Reply(0, 0, 0, false));
      assert IsStepOf(step, w) && Enabled(s, step);
    case Publishing(_, _) =>
      assert IsStepOf(Publish(w), w) && Enabled(s, Publish(w));
  }
}
