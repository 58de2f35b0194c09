/** The loops of the request scheduler's threads, each proved to do what its step in a run does. */
module RequestThreads {
  import opened Wrappers
  import opened Bytes
  import opened RequestQueue
  import opened Sequences

  method Hash(s: ByteString) returns (hashval: nat)
    ensures hashval == HashFrom(s, 17)
  {
    hashval := 17;
    var i := 0;
    while i < |s| && s[i] != 0
      invariant i <= |s| && HashFrom(s[i..], hashval) == HashFrom(s, 17)
    {
      assert s[i..][1..] == s[i + 1..];
      hashval := (SignedChar(s[i]) + 31 * hashval) % TWO_32;
      i := i + 1;
    }
  }

  /** The characters up to the first zero, signed, as the digits of a number in base 31 after `acc`. */
  function Polynomial(s: ByteString, acc: int): int {
    if s == [] || s[0] == 0 then acc
    else Polynomial(s[1..], 31 * acc + s[0] - (if s[0] > 127 then 256 else 0))
  }

  /** The hash is that number, begun with 17, modulo 2^32. */
  lemma HashIsPolynomial(s: ByteString)
    ensures HashFrom(s, 17) == Polynomial(s, 17) % TWO_32
  {
    HashSteps(s, 17);
  }

  /** An endpoint's worker is that hash modulo the size of the pool. */
  lemma RouteIsHash(e: Endpoint, poolSize: nat)
    requires poolSize > 0
    ensures Route(e, poolSize) == Polynomial(e, 17) % 0x1_0000_0000 % poolSize
  {
    hide HashFrom, Polynomial;
    HashIsPolynomial(e);
  }

  lemma {:induction false} HashSteps(s: ByteString, acc: int)
    ensures HashFrom(s, acc % TWO_32) == Polynomial(s, acc) % TWO_32
  {
    if s != [] && s[0] != 0 {
      var c := SignedChar(s[0]);
      WrapsAlike(c, acc);
      HashSteps(s[1..], c + 31 * acc);
    }
  }

  lemma WrapsAlike(c: int, acc: int)
    ensures (c + 31 * (acc % TWO_32)) % TWO_32 == (c + 31 * acc) % TWO_32
  {
    var q := acc / TWO_32;
    assert c + 31 * acc == (c + 31 * (acc % TWO_32)) + TWO_32 * (31 * q);
    WrapMore(c + 31 * (acc % TWO_32), 31 * q);
  }

  function Total(lanes: seq<Lane>): nat {
    if lanes == [] then 0 else |lanes[0].queue| + Total(lanes[1..])
  }

  /** One worker's queue; its lock makes each method one step. */
  class InThread {
    var requestsIn: seq<Lane>
    var buckets: map<Endpoint, Bucket>

    constructor ()
      ensures requestsIn == [] && buckets == map[]
    {
      requestsIn, buckets := [], map[];
    }

    /** Whether the next request of an endpoint may be sent, or its bucket says to wait. */
    method BucketAllows(endpoint: Endpoint, now: word64) returns (send: bool)
      ensures send <==> MaySend(Find(buckets, endpoint), now)
      ensures endpoint !in buckets ==> send
      ensures endpoint in buckets ==>
        var b := buckets[endpoint];
        !send <==> b.remaining == 0 && now <= (b.timestamp + if b.retryAfter != 0 then b.retryAfter else b.resetAfter) % TWO_64
    {
      if endpoint in buckets {
        var bucket := buckets[endpoint];
        if bucket.remaining < 1 {
          var wait := if bucket.retryAfter != 0 then bucket.retryAfter else bucket.resetAfter;
          return now > (bucket.timestamp + wait) % TWO_64;
        }
      }
      return true;
    }

    /** Makes a bucket from a reply; a global limit names how long it lasts. */
    method KeepReply(req: Request, reply: Reply, now: nat) returns (global: bool, limitedFor: word64)
      modifies this`buckets
      ensures Find(buckets, req.endpoint) == Some(BucketOf(reply, now))
      ensures forall e :: e != req.endpoint ==> Find(buckets, e) == old(Find(buckets, e))
      ensures global == reply.global && (reply.retryAfter != 0 ==> limitedFor == reply.retryAfter)
      ensures reply.retryAfter == 0 ==> limitedFor == reply.resetAfter
    {
      var bucket := Bucket(reply.remaining, reply.resetAfter, reply.retryAfter, now);
      global := reply.global;
      limitedFor := if bucket.retryAfter != 0 then bucket.retryAfter else bucket.resetAfter;
      buckets := buckets[req.endpoint := bucket];
    }

    method PostRequest(req: Request)
      modifies this`requestsIn
      ensures requestsIn == PostTo(old(requestsIn), req)
    {
      var i := 0;
      while i < |requestsIn| && requestsIn[i].endpoint != req.endpoint
        invariant 0 <= i <= |requestsIn|
        invariant forall k :: 0 <= k < i ==> requestsIn[k].endpoint != req.endpoint
      {
        i := i + 1;
      }
      if i < |requestsIn| {
        AppendToAt(requestsIn, req, i);
        requestsIn := requestsIn[i := Lane(req.endpoint, requestsIn[i].queue + [req])];
      } else {
        i := 0;
        while i < |requestsIn| && !KeyLess(req.endpoint, requestsIn[i].endpoint)
          invariant 0 <= i <= |requestsIn|
          invariant forall k :: 0 <= k < i ==> !KeyLess(req.endpoint, requestsIn[k].endpoint)
        {
          i := i + 1;
        }
        InsertLaneAt(requestsIn, req, i);
        requestsIn := requestsIn[..i] + [Lane(req.endpoint, [req])] + requestsIn[i..];
      }
    }

    /**
     Erases one completed request at a time and starts over, since erasing invalidates the
     position, until a whole scan finds none. It fails at a request whose memory has been freed.
     */
    method EraseCompleted(completed: set<Request>, freed: set<Request>) returns (failed: bool)
      modifies this`requestsIn
      ensures failed <==> old(HeldBy(requestsIn)) * freed != {}
      ensures !failed ==> requestsIn == Cleaned(old(requestsIn), completed)
    {
      hide HeldBy, Cleaned, Total;
      failed := false;
      var again := true;
      while again
        invariant Cleaned(requestsIn, completed) == Cleaned(old(requestsIn), completed)
        invariant HeldBy(requestsIn) * freed == old(HeldBy(requestsIn)) * freed
        invariant !again ==> NoneOf(requestsIn, |requestsIn|, completed + freed)
        decreases Total(requestsIn), again
      {
        again := false;
        ghost var scanned := requestsIn;
        var b := 0;
        while b < |requestsIn| && !again
          invariant b <= |requestsIn|
          invariant !again ==> requestsIn == scanned && NoneOf(requestsIn, b, completed + freed)
          invariant again ==> Total(requestsIn) < Total(scanned)
          invariant Cleaned(requestsIn, completed) == Cleaned(old(requestsIn), completed)
          invariant HeldBy(requestsIn) * freed == old(HeldBy(requestsIn)) * freed
          decreases |requestsIn| - b, !again
        {
          var q := requestsIn[b].queue;
          var k := FirstOf(q, completed + freed);
          if k < |q| && q[k] in freed {
            HeldAt(requestsIn, b, k);
            assert q[k] in HeldBy(requestsIn) * freed;
            failed := true;
            return;
          }
          if k < |q| {
            EraseOne(requestsIn, b, k, completed);
            EraseHeld(requestsIn, b, k);
            requestsIn := requestsIn[b := Lane(requestsIn[b].endpoint, q[..k] + q[k + 1..])];
            again := true;
          } else {
            b := b + 1;
          }
        }
      }
      NothingToClean(requestsIn, completed + freed, completed);
      NothingHeld(requestsIn, completed + freed);
      assert old(HeldBy(requestsIn)) * freed == {};
    }
  }

  /** The place of the first of these requests, or the end. */
  method FirstOf(q: seq<Request>, these: set<Request>) returns (k: nat)
    ensures k <= |q| && (forall i :: 0 <= i < k ==> q[i] !in these) && (k < |q| ==> q[k] in these)
  {
    k := 0;
    while k < |q| && q[k] !in these
      invariant k <= |q| && forall i :: 0 <= i < k ==> q[i] !in these
    {
      k := k + 1;
    }
  }

  predicate NoneOf(lanes: seq<Lane>, n: nat, these: set<Request>) {
    forall b, i :: 0 <= b < n && b < |lanes| && 0 <= i < |lanes[b].queue| ==> lanes[b].queue[i] !in these
  }

  lemma {:induction false} AppendToAt(lanes: seq<Lane>, r: Request, i: nat)
    requires i < |lanes| && lanes[i].endpoint == r.endpoint
    requires forall k :: 0 <= k < i ==> lanes[k].endpoint != r.endpoint
    ensures AppendTo(lanes, r) == lanes[i := Lane(r.endpoint, lanes[i].queue + [r])]
  {
    if i > 0 {
      AppendToAt(lanes[1..], r, i - 1);
    }
  }

  lemma {:induction false} InsertLaneAt(lanes: seq<Lane>, r: Request, i: nat)
    requires i <= |lanes| && (i < |lanes| ==> KeyLess(r.endpoint, lanes[i].endpoint))
    requires forall k :: 0 <= k < i ==> !KeyLess(r.endpoint, lanes[k].endpoint)
    ensures InsertLane(lanes, r) == lanes[..i] + [Lane(r.endpoint, [r])] + lanes[i..]
  {
    if i > 0 {
      InsertLaneAt(lanes[1..], r, i - 1);
      assert lanes[..i] == [lanes[0]] + lanes[1..][..i - 1];
    }
  }

  lemma {:induction false} EraseFrom(q: seq<Request>, k: nat, completed: set<Request>)
    requires k < |q| && q[k] in completed
    ensures Without(q[..k] + q[k + 1..], completed) == Without(q, completed)
  {
    var q' := q[..k] + q[k + 1..];
    if k == 0 {
      assert q' == q[1..];
    } else {
      EraseFrom(q[1..], k - 1, completed);
      assert q'[1..] == q[1..][..k - 1] + q[1..][k..];
    }
  }

  lemma {:induction false} EraseOne(lanes: seq<Lane>, b: nat, k: nat, completed: set<Request>)
    requires b < |lanes| && k < |lanes[b].queue| && lanes[b].queue[k] in completed
    ensures var q := lanes[b].queue;
      var lanes' := lanes[b := Lane(lanes[b].endpoint, q[..k] + q[k + 1..])];
      Cleaned(lanes', completed) == Cleaned(lanes, completed) && Total(lanes') < Total(lanes)
  {
    var q := lanes[b].queue;
    var lanes' := lanes[b := Lane(lanes[b].endpoint, q[..k] + q[k + 1..])];
    if b == 0 {
      EraseFrom(q, k, completed);
      assert lanes'[1..] == lanes[1..];
    } else {
      EraseOne(lanes[1..], b - 1, k, completed);
      assert lanes'[1..] == lanes[1..][b - 1 := Lane(lanes[b].endpoint, q[..k] + q[k + 1..])];
    }
  }

  lemma HeldAt(lanes: seq<Lane>, b: nat, k: nat)
    requires b < |lanes| && k < |lanes[b].queue|
    ensures lanes[b].queue[k] in HeldBy(lanes)
  {
    assert lanes[b] in lanes && lanes[b].queue[k] in lanes[b].queue;
  }

  lemma EraseHeld(lanes: seq<Lane>, b: nat, k: nat)
    requires b < |lanes| && k < |lanes[b].queue|
    ensures var q := lanes[b].queue;
      var held := HeldBy(lanes[b := Lane(lanes[b].endpoint, q[..k] + q[k + 1..])]);
      held <= HeldBy(lanes) <= held + {q[k]}
  {
    var q := lanes[b].queue;
    var lane := Lane(lanes[b].endpoint, q[..k] + q[k + 1..]);
    var lanes' := lanes[b := lane];
    forall r | r in HeldBy(lanes') ensures r in HeldBy(lanes) {
      var l :| l in lanes' && r in l.queue;
      if l !in lanes {
        var i :| 0 <= i < |q| && q[i] == r;
        HeldAt(lanes, b, i);
      }
    }
    forall r | r in HeldBy(lanes) && r != q[k] ensures r in HeldBy(lanes') {
      var i, j :| 0 <= i < |lanes| && 0 <= j < |lanes[i].queue| && lanes[i].queue[j] == r;
      HeldAt(lanes', i, if i != b || j < k then j else j - 1);
    }
  }

  lemma NothingHeld(lanes: seq<Lane>, these: set<Request>)
    requires NoneOf(lanes, |lanes|, these)
    ensures HeldBy(lanes) !! these
  {
    forall r | r in HeldBy(lanes) ensures r !in these {
      var i, j :| 0 <= i < |lanes| && 0 <= j < |lanes[i].queue| && lanes[i].queue[j] == r;
    }
  }

  lemma {:induction false} NothingToClean(lanes: seq<Lane>, these: set<Request>, completed: set<Request>)
    requires NoneOf(lanes, |lanes|, these) && completed <= these
    ensures Cleaned(lanes, completed) == lanes
  {
    if lanes != [] {
      WithoutNone(lanes[0].queue, completed);
      forall b, i | 0 <= b < |lanes[1..]| && 0 <= i < |lanes[1..][b].queue| ensures lanes[1..][b].queue[i] !in these {
        assert lanes[1..][b] == lanes[b + 1];
      }
      NothingToClean(lanes[1..], these, completed);
    }
  }

  /** The completion thread: the queue of finished requests and those waiting to be deleted. */
  class OutThread {
    var responsesOut: seq<Request>
    var toDelete: seq<Deletion>

    constructor ()
      ensures responsesOut == [] && toDelete == []
    {
      responsesOut, toDelete := [], [];
    }

    /** One turn of the loop: completes at most one request, then deletes what is due. */
    method Turn(now: nat, completed: set<Request>) returns (fired: seq<Request>, deleted: seq<Request>)
      modifies this
      ensures var popped := if old(responsesOut) == [] then [] else old(responsesOut)[..1];
        var waiting := Scheduled(old(toDelete), popped, now);
        && fired == Fired(popped, completed)
        && responsesOut == old(responsesOut)[|popped|..]
        && toDelete == waiting[DueCount(waiting, now)..]
        && deleted == Requests(waiting[..DueCount(waiting, now)])
    {
      fired := Complete(now, completed);
      deleted := DeleteDue(now);
    }

    method Complete(now: nat, completed: set<Request>) returns (fired: seq<Request>)
      modifies this
      ensures var popped := if old(responsesOut) == [] then [] else old(responsesOut)[..1];
        && fired == Fired(popped, completed)
        && responsesOut == old(responsesOut)[|popped|..]
        && toDelete == Scheduled(old(toDelete), popped, now)
    {
      fired := [];
      if |responsesOut| > 0 {
        var head := responsesOut[0];
        responsesOut := responsesOut[1..];
        if head in completed {
          fired := [head];
        }
        var i := 0;
        while i < |toDelete| && toDelete[i].due <= now + 60
          invariant i <= |toDelete| && forall k :: 0 <= k < i ==> toDelete[k].due <= now + 60
        {
          i := i + 1;
        }
        ScheduleAt(toDelete, Deletion(now + 60, head), i);
        toDelete := toDelete[..i] + [Deletion(now + 60, head)] + toDelete[i..];
      }
    }

    method DeleteDue(now: nat) returns (deleted: seq<Request>)
      modifies this`toDelete
      ensures var n := DueCount(old(toDelete), now);
        toDelete == old(toDelete)[n..] && deleted == Requests(old(toDelete)[..n])
    {
      deleted := [];
      ghost var waiting := toDelete;
      ghost var n := 0;
      while |toDelete| > 0 && now >= toDelete[0].due
        invariant n <= |waiting| && toDelete == waiting[n..] && deleted == Requests(waiting[..n])
        invariant DueCount(waiting, now) == n + DueCount(toDelete, now)
      {
        assert waiting[..n + 1] == waiting[..n] + [toDelete[0]];
        deleted := deleted + [toDelete[0].req];
        toDelete := toDelete[1..];
        n := n + 1;
      }
    }
  }

  lemma {:induction false} ScheduleAt(ds: seq<Deletion>, d: Deletion, i: nat)
    requires i <= |ds| && (i < |ds| ==> d.due < ds[i].due)
    requires forall k :: 0 <= k < i ==> ds[k].due <= d.due
    ensures Schedule(ds, d) == ds[..i] + [d] + ds[i..]
  {
    if i > 0 {
      ScheduleAt(ds[1..], d, i - 1);
      assert ds[..i] == [ds[0]] + ds[1..][..i - 1];
    }
  }
}
