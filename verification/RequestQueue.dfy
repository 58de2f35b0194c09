/**
 The REST request scheduler: a pool of worker threads, each with its own queue of requests
 per endpoint and its own rate-limit buckets, and one thread that completes and later
 deletes requests. Every interleaving of posters, workers, replies and the completion
 thread is a run of `Next`.
 */
module RequestQueue {
  import opened Wrappers
  import opened Bytes
  import opened Sequences

  type Endpoint = ByteString

  datatype Request = Request(id: nat, endpoint: Endpoint)

  /** The rate-limit headers of a reply. */
  datatype Reply = Reply(remaining: word64, resetAfter: word64, retryAfter: word64, global: bool)

  datatype Bucket = Bucket(remaining: word64, resetAfter: word64, retryAfter: word64, timestamp: nat)

  // ---------- Routing ----------

  function SignedChar(b: byte): int {
    if b < 128 then b else b - 256
  }

  /** The hash of a C string: it stops at the first zero byte and wraps at 32 bits. */
  function HashFrom(s: ByteString, hashval: nat): nat
    decreases |s|
  {
    if s == [] || s[0] == 0 then hashval
    else HashFrom(s[1..], (SignedChar(s[0]) + 31 * hashval) % TWO_32)
  }

  function Route(e: Endpoint, poolSize: nat): (w: nat)
    requires poolSize > 0
    ensures w < poolSize
  {
    HashFrom(e, 17) % poolSize
  }

  // ---------- The ordered map from endpoints to request vectors ----------

  datatype Lane = Lane(endpoint: Endpoint, queue: seq<Request>)

  predicate HasLane(lanes: seq<Lane>, e: Endpoint) {
    exists i :: 0 <= i < |lanes| && lanes[i].endpoint == e
  }

  predicate UniqueLanes(lanes: seq<Lane>) {
    forall i, j :: 0 <= i < j < |lanes| ==> lanes[i].endpoint != lanes[j].endpoint
  }

  function QueueOf(lanes: seq<Lane>, e: Endpoint): seq<Request> {
    if lanes == [] then []
    else if lanes[0].endpoint == e then lanes[0].queue
    else QueueOf(lanes[1..], e)
  }

  /** Appends to the request's vector, which is created when it is missing. */
  function PostTo(lanes: seq<Lane>, r: Request): seq<Lane> {
    if HasLane(lanes, r.endpoint) then AppendTo(lanes, r) else InsertLane(lanes, r)
  }

  function AppendTo(lanes: seq<Lane>, r: Request): seq<Lane> {
    if lanes == [] then []
    else if lanes[0].endpoint == r.endpoint then [Lane(r.endpoint, lanes[0].queue + [r])] + lanes[1..]
    else [lanes[0]] + AppendTo(lanes[1..], r)
  }

  function InsertLane(lanes: seq<Lane>, r: Request): seq<Lane> {
    if lanes == [] || KeyLess(r.endpoint, lanes[0].endpoint) then [Lane(r.endpoint, [r])] + lanes
    else [lanes[0]] + InsertLane(lanes[1..], r)
  }

  function Cleaned(lanes: seq<Lane>, done: set<Request>): (r: seq<Lane>)
    ensures |r| == |lanes|
  {
    if lanes == [] then []
    else [Lane(lanes[0].endpoint, Without(lanes[0].queue, done))] + Cleaned(lanes[1..], done)
  }

  // ---------- Rate limits ----------

  function Wait(b: Bucket): word64 {
    if b.retryAfter != 0 then b.retryAfter else b.resetAfter
  }

  /** When a bucket with nothing remaining opens again; the sum wraps at 64 bits. */
  function Due(b: Bucket): nat {
    (b.timestamp + Wait(b)) % TWO_64
  }

  predicate MaySend(b: Option<Bucket>, now: nat) {
    b.Some? && b.value.remaining < 1 ==> now > Due(b.value)
  }

  function BucketOf(reply: Reply, now: nat): Bucket {
    Bucket(reply.remaining, reply.resetAfter, reply.retryAfter, now)
  }

  function Find<K, V>(m: map<K, V>, k: K): Option<V> {
    if k in m then Some(m[k]) else None
  }

  // ---------- State ----------

  datatype Phase =
    | Idle
    | Scanning(copy: seq<Lane>)
    | Sending(req: Request, copy: seq<Lane>)
    | Publishing(req: Request, copy: seq<Lane>)

  datatype Worker = Worker(requestsIn: seq<Lane>, buckets: map<Endpoint, Bucket>, phase: Phase)

  datatype Deletion = Deletion(due: nat, req: Request)

  datatype Event =
    | Sent(req: Request, at: nat)
    | Replied(req: Request, at: nat, reply: Reply)
    | Handled(req: Request, at: nat)
    | CleanedUp(w: nat)

  /**
   `posted`, `ran`, `handled`, `deleted` and `log` record what has happened so far. The queue has
   `failed` when a thread has read the memory of a deleted request; nothing is known of it then.
   */
  datatype State = State(
    workers: seq<Worker>,
    globallyRatelimited: bool,
    globallyLimitedFor: word64,
    completed: set<Request>,
    responsesOut: seq<Request>,
    toDelete: seq<Deletion>,
    clock: nat,
    posted: seq<Request>,
    ran: seq<Request>,
    handled: seq<Request>,
    deleted: seq<Request>,
    log: seq<Event>,
    failed: bool)

  function Initial(poolSize: nat, clock: nat): State {
    State(seq(poolSize, _ => Worker([], map[], Idle)), false, 0, {}, [], [], clock, [], [], [], [], [], false)
  }

  // ---------- Steps ----------

  datatype Step =
    | Post(req: Request)
    | Snapshot(w: nat)
    | Take(w: nat)
    | Receive(w: nat, reply: Reply)
    | Publish(w: nat)
    | Clean(w: nat)
    | Unlimit(w: nat)
    | OutPass
    | Tick(seconds: nat)

  /** A request object is posted once; every other step needs its worker at the right point. */
  predicate Enabled(s: State, step: Step) {
    !s.failed &&
    match step
    case Post(r) => r !in s.posted && |s.workers| > 0
    case Snapshot(w) => w < |s.workers| && s.workers[w].phase.Idle? && !s.globallyRatelimited && s.workers[w].requestsIn != []
    case Take(w) => w < |s.workers| && s.workers[w].phase.Scanning? && s.workers[w].phase.copy != []
    case Receive(w, _) => w < |s.workers| && s.workers[w].phase.Sending?
    case Publish(w) => w < |s.workers| && s.workers[w].phase.Publishing?
    case Clean(w) => w < |s.workers| && s.workers[w].phase == Scanning([])
    case Unlimit(w) => w < |s.workers| && s.workers[w].phase.Idle? && s.globallyRatelimited
    case OutPass => true
    case Tick(_) => true
  }

  /** The requests in a worker's queue. */
  function HeldBy(lanes: seq<Lane>): set<Request> {
    set l, r | l in lanes && r in l.queue :: r
  }

  /** The requests whose memory a step reads: the erase loop asks every one it holds whether it is done. */
  function Touched(s: State, step: Step): set<Request>
    requires Enabled(s, step)
  {
    match step
    case Take(w) =>
      var lane := s.workers[w].phase.copy[0];
      if lane.queue == [] then {} else {lane.queue[0]}
    case Receive(w, _) => {s.workers[w].phase.req}
    case Clean(w) => HeldBy(s.workers[w].requestsIn)
    case OutPass =>
      (if s.responsesOut == [] then {} else {s.responsesOut[0]})
        + (set i | 0 <= i < DueCount(s.toDelete, s.clock) :: s.toDelete[i].req)
    case _ => {}
  }

  /** A step that reads a deleted request fails. */
  predicate Fails(s: State, step: Step)
    requires Enabled(s, step)
  {
    exists r :: r in Touched(s, step) && r in s.deleted
  }

  function Next(s: State, step: Step): State
    requires Enabled(s, step)
  {
    if Fails(s, step) then s.(failed := true) else Act(s, step)
  }

  function Act(s: State, step: Step): State
    requires Enabled(s, step)
  {
    match step
    case Post(r) =>
      var w := Route(r.endpoint, |s.workers|);
      var wk := s.workers[w];
      s.(workers := s.workers[w := wk.(requestsIn := PostTo(wk.requestsIn, r))], posted := s.posted + [r])
    case Snapshot(w) =>
      var wk := s.workers[w];
      s.(workers := s.workers[w := wk.(phase := Scanning(wk.requestsIn))])
    case Take(w) => TakeNext(s, w)
    case Receive(w, reply) =>
      var wk := s.workers[w];
      var r := wk.phase.req;
      var b := BucketOf(reply, s.clock);
      s.(workers := s.workers[w := Worker(wk.requestsIn, wk.buckets[r.endpoint := b], Publishing(r, wk.phase.copy))],
         completed := s.completed + {r},
         globallyRatelimited := reply.global,
         globallyLimitedFor := if reply.global then (if b.retryAfter != 0 then b.retryAfter else b.resetAfter)
                               else s.globallyLimitedFor,
         log := s.log + [Replied(r, s.clock, reply)])
    case Publish(w) =>
      var wk := s.workers[w];
      s.(workers := s.workers[w := wk.(phase := Scanning(wk.phase.copy))],
         responsesOut := s.responsesOut + [wk.phase.req])
    case Clean(w) =>
      var wk := s.workers[w];
      s.(workers := s.workers[w := wk.(requestsIn := Cleaned(wk.requestsIn, s.completed), phase := Idle)],
         log := s.log + [CleanedUp(w)])
    case Unlimit(w) =>
      s.(globallyLimitedFor := 0, globallyRatelimited := false)
    case OutPass =>
      var popped := if s.responsesOut == [] then [] else s.responsesOut[..1];
      var waiting := Scheduled(s.toDelete, popped, s.clock);
      var fired := Fired(popped, s.completed);
      s.(responsesOut := s.responsesOut[|popped|..],
         handled := s.handled + fired,
         log := if fired == [] then s.log else s.log + [Handled(fired[0], s.clock)],
         toDelete := waiting[DueCount(waiting, s.clock)..],
         deleted := s.deleted + Requests(waiting[..DueCount(waiting, s.clock)]))
    case Tick(seconds) => s.(clock := s.clock + seconds)
  }

  /** The next request of the pass: sent if its bucket allows it, otherwise its endpoint is skipped. */
  function TakeNext(s: State, w: nat): State
    requires Enabled(s, Take(w))
  {
    var wk := s.workers[w];
    var lane, rest := wk.phase.copy[0], wk.phase.copy[1..];
    if lane.queue != [] && MaySend(Find(wk.buckets, lane.endpoint), s.clock) then
      var r := lane.queue[0];
      s.(workers := s.workers[w := wk.(phase := Sending(r, [Lane(lane.endpoint, lane.queue[1..])] + rest))],
         ran := s.ran + [r],
         log := s.log + [Sent(r, s.clock)])
    else
      s.(workers := s.workers[w := wk.(phase := Scanning(rest))])
  }

  /** The handlers called: only those of completed requests. */
  function Fired(popped: seq<Request>, completed: set<Request>): seq<Request> {
    if popped != [] && popped[0] in completed then popped else []
  }

  function Scheduled(toDelete: seq<Deletion>, popped: seq<Request>, now: nat): seq<Deletion> {
    if popped == [] then toDelete else Schedule(toDelete, Deletion(now + 60, popped[0]))
  }

  /** Insertion into a multimap ordered by due time, after equal times. */
  function Schedule(toDelete: seq<Deletion>, d: Deletion): (r: seq<Deletion>)
    ensures |r| == |toDelete| + 1
  {
    if toDelete == [] || d.due < toDelete[0].due then [d] + toDelete
    else [toDelete[0]] + Schedule(toDelete[1..], d)
  }

  /** How many entries from the front are due. */
  function DueCount(toDelete: seq<Deletion>, now: nat): (n: nat)
    ensures n <= |toDelete|
    ensures forall i :: 0 <= i < n ==> toDelete[i].due <= now
    ensures n < |toDelete| ==> toDelete[n].due > now
  {
    if toDelete == [] || now < toDelete[0].due then 0 else 1 + DueCount(toDelete[1..], now)
  }

  function Requests(ds: seq<Deletion>): (r: seq<Request>)
    ensures |r| == |ds|
  {
    seq(|ds|, i requires 0 <= i < |ds| => ds[i].req)
  }

  // ---------- Runs ----------

  predicate IsRun(s: State, steps: seq<Step>)
    decreases |steps|
  {
    steps == [] || (Enabled(s, steps[0]) && IsRun(Next(s, steps[0]), steps[1..]))
  }

  function After(s: State, steps: seq<Step>): State
    requires IsRun(s, steps)
    decreases |steps|
  {
    if steps == [] then s else After(Next(s, steps[0]), steps[1..])
  }

  // ---------- What runs are measured by ----------

  /** The requests of one endpoint, in order. */
  function Of(rs: seq<Request>, e: Endpoint): seq<Request> {
    if rs == [] then []
    else Of(rs[..|rs| - 1], e) + (if rs[|rs| - 1].endpoint == e then [rs[|rs| - 1]] else [])
  }

  /** The last reply on an endpoint, as the bucket it leaves. */
  function LastReply(log: seq<Event>, e: Endpoint): Option<Bucket> {
    if log == [] then None
    else
      var ev := log[|log| - 1];
      if ev.Replied? && ev.req.endpoint == e then Some(BucketOf(ev.reply, ev.at))
      else LastReply(log[..|log| - 1], e)
  }

  /** When a request's handler was called. */
  function HandledAt(log: seq<Event>, r: Request): Option<nat> {
    if log == [] then None
    else
      var ev := log[|log| - 1];
      if ev.Handled? && ev.req == r then Some(ev.at) else HandledAt(log[..|log| - 1], r)
  }

  /** The pass of worker `w` that sent the request has not come to its cleaning yet. */
  predicate StillInPass(log: seq<Event>, r: Request, w: nat) {
    log != [] &&
    var ev := log[|log| - 1];
    if ev.Sent? && ev.req == r then true
    else if ev == CleanedUp(w) then false
    else StillInPass(log[..|log| - 1], r, w)
  }

  /** The requests of an endpoint that were posted and are still to be sent. */
  function Pending(s: State, e: Endpoint): seq<Request>
    requires |s.workers| > 0
  {
    Without(QueueOf(s.workers[Route(e, |s.workers|)].requestsIn, e), set r | r in s.ran)
  }
}
