/**
 Received voice: the order in which parked payloads leave their queue, and the flush that hands
 them to the decoder, filling in for numbers that never came. Sequence numbers are 16 bits wide
 and wrap around, as in section 5.1 of RFC 3550.
 */
module VoicePayloads {

  const MODULUS := 0x1_0000
  const BOUNDARY := 5000

  type SeqNumber = x: int | 0 <= x < 0x1_0000

  datatype Payload = Payload(seqNumber: SeqNumber, timestamp: nat)

  function Wrap(x: int): SeqNumber {
    x % MODULUS
  }

  /** The comparison the queue is ordered by: a payload is less than those to be heard before it. */
  predicate Less(a: Payload, b: Payload) {
    if a.timestamp != b.timestamp then a.timestamp > b.timestamp
    else if (a.seqNumber < BOUNDARY) != (b.seqNumber < BOUNDARY) then
      Wrap(a.seqNumber + BOUNDARY) > Wrap(b.seqNumber + BOUNDARY)
    else a.seqNumber > b.seqNumber
  }

  // ---------- The order ----------

  /** How many numbers a payload is after the first. */
  function Rank(first: SeqNumber, p: Payload): SeqNumber {
    Wrap(p.seqNumber - first)
  }

  /** How far after the first the comparison can be relied on. */
  function Reach(first: SeqNumber): (w: SeqNumber)
    ensures w >= BOUNDARY
  {
    if first < BOUNDARY then MODULUS - BOUNDARY - 1 - first
    else if first < MODULUS - BOUNDARY then MODULUS - 1 - first
    else MODULUS + BOUNDARY - 1 - first
  }

  /** Payloads of different numbers, within the reach of the first, whose times do not go back. */
  predicate InWindow(first: SeqNumber, queue: set<Payload>) {
    && (forall p :: p in queue ==> Rank(first, p) <= Reach(first))
    && (forall p, q :: p in queue && q in queue && p != q ==> p.seqNumber != q.seqNumber)
    && (forall p, q :: p in queue && q in queue && Rank(first, p) < Rank(first, q) ==> p.timestamp <= q.timestamp)
  }

  lemma WrapCases(x: int)
    requires -MODULUS <= x < 2 * MODULUS
    ensures Wrap(x) == if x < 0 then x + MODULUS else if x < MODULUS then x else x - MODULUS
  {
  }

  /** The comparison sees three zones of numbers, each before the next, and the last before the first. */
  function Zone(p: Payload): (z: nat)
    ensures z < 3
  {
    if p.seqNumber < BOUNDARY then 0 else if p.seqNumber < MODULUS - BOUNDARY then 1 else 2
  }

  lemma LessByZone(a: Payload, b: Payload)
    requires a.timestamp == b.timestamp
    ensures Less(a, b) <==> if Zone(a) == Zone(b) then a.seqNumber > b.seqNumber else Zone(a) == (Zone(b) + 1) % 3
  {
    WrapCases(a.seqNumber + BOUNDARY);
    WrapCases(b.seqNumber + BOUNDARY);
    hide Wrap;
  }

  /** Of two payloads with one time, the comparison finds the later one. */
  lemma LessWithinReach(first: SeqNumber, a: Payload, b: Payload)
    requires a.timestamp == b.timestamp && a.seqNumber != b.seqNumber
    requires Rank(first, a) <= Reach(first) && Rank(first, b) <= Reach(first)
    ensures Less(a, b) <==> Rank(first, a) > Rank(first, b)
  {
    LessByZone(a, b);
    WrapCases(a.seqNumber - first);
    WrapCases(b.seqNumber - first);
    hide Wrap, Less;
  }

  predicate Comparable(first: SeqNumber, width: SeqNumber, a: Payload, b: Payload) {
    a.timestamp == b.timestamp && a.seqNumber != b.seqNumber && Rank(first, a) <= width && Rank(first, b) <= width
  }

  /** The comparison of any two numbers up to `width` after the first, at one time, is that of their ranks. */
  ghost predicate Reliable(first: SeqNumber, width: SeqNumber) {
    forall a: Payload, b: Payload {:trigger Less(a, b)} :: Comparable(first, width, a, b) ==>
      (Less(a, b) <==> Rank(first, a) > Rank(first, b))
  }

  lemma ReliableWithinReach(first: SeqNumber, width: SeqNumber)
    ensures Reliable(first, width) <==> width <= Reach(first)
  {
    if width <= Reach(first) {
      forall a: Payload, b: Payload | Comparable(first, width, a, b) ensures Less(a, b) <==> Rank(first, a) > Rank(first, b) {
        LessWithinReach(first, a, b);
      }
    } else {
      var a, b := Payload(first, 0), Payload(Wrap(first + Reach(first) + 1), 0);
      WrapCases(first + Reach(first) + 1);
      WrapCases(b.seqNumber - first);
      LessByZone(b, a);
      assert Rank(first, a) == 0 && Rank(first, b) == Reach(first) + 1 && !Less(b, a);
    }
  }

  lemma RanksDiffer(first: SeqNumber, a: Payload, b: Payload)
    ensures Rank(first, a) == Rank(first, b) <==> a.seqNumber == b.seqNumber
  {
    WrapCases(a.seqNumber - first);
    WrapCases(b.seqNumber - first);
    hide Wrap;
  }

  /** In a window the comparison is the order of the numbers, counted from the first, reversed. */
  lemma LessIsLater(first: SeqNumber, queue: set<Payload>, a: Payload, b: Payload)
    requires InWindow(first, queue) && a in queue && b in queue
    ensures Less(a, b) <==> Rank(first, a) > Rank(first, b)
  {
    if a != b {
      RanksDiffer(first, a, b);
      if a.timestamp == b.timestamp {
        LessWithinReach(first, a, b);
      }
    }
  }

  /** The comparison can serve as an order on a queue. */
  predicate Orders(queue: set<Payload>) {
    && (forall p :: p in queue ==> !Less(p, p))
    && (forall p, q, r :: p in queue && q in queue && r in queue && Less(p, q) && Less(q, r) ==> Less(p, r))
    && (forall p, q :: p in queue && q in queue && p != q ==> Less(p, q) || Less(q, p))
  }

  /** Three payloads of one time, one in each zone. */
  predicate Circle(queue: set<Payload>) {
    exists h, l, m :: h in queue && l in queue && m in queue && OnePerZone(h, l, m)
  }

  predicate OnePerZone(h: Payload, l: Payload, m: Payload) {
    && h.timestamp == l.timestamp == m.timestamp
    && h.seqNumber >= MODULUS - BOUNDARY && l.seqNumber < BOUNDARY && BOUNDARY <= m.seqNumber < MODULUS - BOUNDARY
  }

  /** The comparison orders a queue just when no three of its payloads make it go in a circle. */
  lemma OrdersExactly(queue: set<Payload>)
    ensures Orders(queue) <==> !Circle(queue)
  {
    if h, l, m :| h in queue && l in queue && m in queue && OnePerZone(h, l, m) {
      LessByZone(l, h);
      LessByZone(m, l);
      LessByZone(h, m);
      hide Less;
      assert Less(m, l) && Less(l, h) && Less(h, m) && !Orders(queue);
    } else {
      forall p, q, r | p in queue && q in queue && r in queue && Less(p, q) && Less(q, r) ensures Less(p, r) {
        LessFollows(queue, p, q, r);
      }
    }
  }

  lemma LessFollows(queue: set<Payload>, p: Payload, q: Payload, r: Payload)
    requires !Circle(queue) && p in queue && q in queue && r in queue && Less(p, q) && Less(q, r)
    ensures Less(p, r)
  {
    if p.timestamp == q.timestamp == r.timestamp {
      LessByZone(p, q);
      LessByZone(q, r);
      LessByZone(p, r);
      hide Less;
      var h, l, m := if Zone(p) == 2 then p else if Zone(q) == 2 then q else r,
        if Zone(p) == 0 then p else if Zone(q) == 0 then q else r,
        if Zone(p) == 1 then p else if Zone(q) == 1 then q else r;
      assert !OnePerZone(h, l, m);
    }
  }

  /** Three numbers near the ends of the zones go in a circle. */
  lemma LessCanCircle()
    ensures var a, b, c := Payload(4999, 0), Payload(5000, 0), Payload(65535, 0);
      Less(b, a) && Less(c, b) && Less(a, c) && !Orders({a, b, c})
  {
    var a, b, c := Payload(4999, 0), Payload(5000, 0), Payload(65535, 0);
    assert c in {a, b, c} && a in {a, b, c} && b in {a, b, c};
    OrdersExactly({a, b, c});
  }

  lemma WindowIsOrdered(first: SeqNumber, queue: set<Payload>)
    requires InWindow(first, queue)
    ensures Orders(queue)
  {
    forall p, q | p in queue && q in queue ensures Less(p, q) <==> Rank(first, p) > Rank(first, q) {
      LessIsLater(first, queue, p, q);
    }
    forall p, q | p in queue && q in queue && p != q ensures Rank(first, p) != Rank(first, q) {
      RanksDiffer(first, p, q);
    }
    hide Less, Rank;
  }

  // ---------- The flush ----------

  /** What the decoder is given: a payload, or nothing for a number that was lost. */
  datatype Decoded = Delivered(payload: Payload) | Lost(seqNumber: SeqNumber)

  function NumberOf(d: Decoded): SeqNumber {
    if d.Delivered? then d.payload.seqNumber else d.seqNumber
  }

  function Payloads(out: seq<Decoded>): multiset<Payload> {
    if out == [] then multiset{}
    else
      var last := out[|out| - 1];
      Payloads(out[..|out| - 1]) + if last.Delivered? then multiset{last.payload} else multiset{}
  }

  function Elements(queue: multiset<Payload>): set<Payload> {
    set p | p in queue
  }

  /** The flush of a window's payloads: one step for each number up to the last, none twice. */
  predicate InOrder(first: SeqNumber, queue: set<Payload>, out: seq<Decoded>) {
    && (forall k :: 0 <= k < |out| ==>
          if out[k].Delivered? then out[k].payload in queue && Rank(first, out[k].payload) == k
          else forall p :: p in queue ==> Rank(first, p) != k)
  }

  lemma {:induction false} MaximumExists(queue: set<Payload>) returns (top: Payload)
    requires queue != {} && Orders(queue)
    ensures top in queue && forall q :: q in queue ==> !Less(top, q)
  {
    var p :| p in queue;
    var rest := queue - {p};
    if rest == {} {
      top := p;
      assert queue == {p};
    } else {
      hide Less;
      var best := MaximumExists(rest);
      top := if Less(best, p) then p else best;
      forall q | q in queue ensures !Less(top, q) {
        assert !Less(p, p) && (q != p ==> !Less(best, q));
        assert Less(best, p) && Less(p, q) ==> Less(best, q);
      }
    }
  }

  /** The front of the queue: a greatest element if the comparison orders it, or else any. */
  method Top(queue: multiset<Payload>) returns (top: Payload)
    requires queue != multiset{}
    ensures IsTop(top, queue)
  {
    ghost var somebody :| somebody in queue;
    assert somebody in Elements(queue);
    if Orders(Elements(queue)) {
      ghost var greatest := MaximumExists(Elements(queue));
      assert greatest in queue && forall q :: q in queue ==> q in Elements(queue);
    }
    top :| top in queue && (Orders(Elements(queue)) ==> forall q :: q in queue ==> !Less(top, q));
  }

  /** Payloads of different numbers in a window, none twice. */
  predicate Window(first: SeqNumber, queue: multiset<Payload>) {
    InWindow(first, Elements(queue)) && forall p :: p in queue ==> queue[p] == 1
  }

  predicate IsTop(top: Payload, queue: multiset<Payload>) {
    top in queue && (Orders(Elements(queue)) ==> forall q :: q in queue ==> !Less(top, q))
  }

  /** Of a window's payloads those before step `|out|` are out, and in order. */
  predicate Halfway(first: SeqNumber, queue: multiset<Payload>, left: multiset<Payload>, out: seq<Decoded>) {
    && InOrder(first, Elements(queue), out)
    && (forall p :: p in queue ==> (p in left <==> Rank(first, p) >= |out|))
  }

  lemma TopIsNext(first: SeqNumber, queue: multiset<Payload>, left: multiset<Payload>, top: Payload)
    requires Window(first, queue) && left <= queue && IsTop(top, left)
    ensures forall p :: p in left ==> Rank(first, top) <= Rank(first, p)
  {
    var some := Elements(left);
    assert forall p :: p in left ==> p in queue && p in Elements(queue) && p in some;
    assert InWindow(first, some);
    WindowIsOrdered(first, some);
    forall p | p in left ensures Rank(first, top) <= Rank(first, p) {
      LessIsLater(first, some, top, p);
    }
  }

  lemma RankIs(first: SeqNumber, p: Payload, k: nat)
    requires k < MODULUS
    ensures Rank(first, p) == k <==> p.seqNumber == Wrap(first + k)
  {
    WrapCases(first + k);
    WrapCases(p.seqNumber - first);
    hide Wrap;
  }

  lemma InWindowOnce(first: SeqNumber, queue: multiset<Payload>, p: Payload)
    requires Window(first, queue) && p in queue
    ensures Rank(first, p) <= Reach(first) && queue[p] == 1
    ensures forall q :: q in queue && q != p ==> Rank(first, q) != Rank(first, p)
  {
    hide Less, Rank;
    assert p in Elements(queue);
    forall q | q in queue && q != p ensures Rank(first, q) != Rank(first, p) {
      assert q in Elements(queue);
      RanksDiffer(first, p, q);
    }
  }

  lemma LostKeeps(first: SeqNumber, queue: multiset<Payload>, left: multiset<Payload>, out: seq<Decoded>, top: Payload)
    requires Window(first, queue) && left <= queue && IsTop(top, left) && Halfway(first, queue, left, out)
    requires top.seqNumber != Wrap(first + |out|)
    ensures Halfway(first, queue, left, out + [Lost(Wrap(first + |out|))])
  {
    hide Rank, Less, Orders, Window, Wrap;
    TopIsNext(first, queue, left, top);
    InWindowOnce(first, queue, top);
    assert |out| <= Rank(first, top);
    RankIs(first, top, |out|);
    assert forall p :: p in Elements(queue) ==> p in queue;
  }

  lemma DeliveredKeeps(first: SeqNumber, queue: multiset<Payload>, left: multiset<Payload>, out: seq<Decoded>, top: Payload)
    requires Window(first, queue) && left <= queue && IsTop(top, left) && Halfway(first, queue, left, out)
    requires top.seqNumber == Wrap(first + |out|)
    ensures Halfway(first, queue, left - multiset{top}, out + [Delivered(top)])
  {
    hide Rank, Less, Orders, Window, Wrap;
    TopIsNext(first, queue, left, top);
    InWindowOnce(first, queue, top);
    assert |out| <= Rank(first, top) && top in Elements(queue);
    RankIs(first, top, |out|);
    assert left[top] == 1;
  }

  lemma HalfwayStart(first: SeqNumber, queue: multiset<Payload>)
    ensures Halfway(first, queue, queue, [])
  {
  }

  /** The numbers still to go through before that of the front of the queue. */
  function Distance(number: SeqNumber, top: Payload): SeqNumber {
    Wrap(top.seqNumber as int - number as int)
  }

  lemma NextNumber(first: SeqNumber, k: nat, top: Payload)
    ensures Wrap(Wrap(first + k) as int + 1) == Wrap(first + (k + 1))
    ensures top.seqNumber != Wrap(first + k) ==> Distance(Wrap(first + (k + 1)), top) == Distance(Wrap(first + k), top) - 1
  {
    var n := Wrap(first + k);
    WrapCases(n as int + 1);
    WrapCases(top.seqNumber as int - n as int);
    WrapCases(top.seqNumber as int - Wrap(n as int + 1) as int);
  }

  /** Step `k` is for number `first + k`, what is out was in the queue, and the steps left are bounded. */
  predicate Steps(first: SeqNumber, queue: multiset<Payload>, left: multiset<Payload>, top: Payload, out: seq<Decoded>) {
    && Payloads(out) + left == queue
    && (forall k :: 0 <= k < |out| ==> NumberOf(out[k]) == Wrap(first + k))
    && (if left == multiset{} then |out| <= MODULUS * |queue| && (out != [] ==> out[|out| - 1].Delivered?)
        else |out| + MODULUS * (|left| - 1) + Distance(Wrap(first + |out|), top) + 1 <= MODULUS * |queue|)
  }

  lemma LostSteps(first: SeqNumber, queue: multiset<Payload>, left: multiset<Payload>, top: Payload, out: seq<Decoded>)
    requires Steps(first, queue, left, top, out) && left != multiset{} && top.seqNumber != Wrap(first + |out|)
    ensures Steps(first, queue, left, top, out + [Lost(Wrap(first + |out|))])
  {
    NextNumber(first, |out|, top);
    var more := out + [Lost(Wrap(first + |out|))];
    assert more[..|out|] == out;
    hide Wrap, Distance;
  }

  lemma DeliveredSteps(first: SeqNumber, queue: multiset<Payload>, left: multiset<Payload>, top: Payload, out: seq<Decoded>, next: Payload)
    requires Steps(first, queue, left, top, out) && IsTop(top, left) && top.seqNumber == Wrap(first + |out|)
    ensures Steps(first, queue, left - multiset{top}, next, out + [Delivered(top)])
    ensures |left - multiset{top}| < |left|
  {
    var more := out + [Delivered(top)];
    assert more[..|out|] == out;
    assert |left - multiset{top}| == |left| - 1;
    assert Payloads(more) == Payloads(out) + multiset{top};
    assert Distance(Wrap(first + |more|), next) < MODULUS && Distance(Wrap(first + |out|), top) >= 0;
    hide Wrap, Distance, Payloads;
  }

  /**
   The loop over the numbers from `first` on. Whatever the queue holds it ends, within as many
   steps as there are numbers for each payload; step `k` is for number `first + k`; and each
   payload is delivered once. A window's payloads come in their order, and only the numbers that
   are missing among them are filled in for.
   */
  method Flush(first: SeqNumber, queue: multiset<Payload>) returns (out: seq<Decoded>)
    ensures |out| <= MODULUS * |queue|
    ensures forall k :: 0 <= k < |out| ==> NumberOf(out[k]) == Wrap(first + k)
    ensures Payloads(out) == queue
    ensures out != [] ==> out[|out| - 1].Delivered?
    ensures Window(first, queue) ==> InOrder(first, Elements(queue), out)
  {
    hide Window, InOrder, Wrap, Distance, Elements, Steps, Halfway, IsTop, NumberOf, Payloads;
    out := [];
    var left, number, top := queue, first, Payload(0, 0);
    if left != multiset{} {
      top := Top(left);
    }
    FlushStarts(first, queue, top);
    while left != multiset{}
      invariant left <= queue && (left != multiset{} ==> IsTop(top, left))
      invariant number == Wrap(first + |out|)
      invariant Steps(first, queue, left, top, out)
      invariant Window(first, queue) ==> Halfway(first, queue, left, out)
      decreases |left|, Distance(number, top)
    {
      NextNumber(first, |out|, top);
      if top.seqNumber != number {
        LostSteps(first, queue, left, top, out);
        if Window(first, queue) { LostKeeps(first, queue, left, out, top); }
        out := out + [Lost(number)];
      } else {
        if Window(first, queue) { DeliveredKeeps(first, queue, left, out, top); }
        ghost var was, before, sofar := top, left, out;
        out := out + [Delivered(top)];
        left := left - multiset{top};
        if left != multiset{} {
          top := Top(left);
        }
        DeliveredSteps(first, queue, before, was, sofar, top);
      }
      number := Wrap(number as int + 1);
    }
    FlushEnds(first, queue, left, top, out);
  }

  lemma FlushEnds(first: SeqNumber, queue: multiset<Payload>, left: multiset<Payload>, top: Payload, out: seq<Decoded>)
    requires left == multiset{} && Steps(first, queue, left, top, out)
    ensures |out| <= MODULUS * |queue| && Payloads(out) == queue
    ensures forall k :: 0 <= k < |out| ==> NumberOf(out[k]) == Wrap(first + k)
    ensures out != [] ==> out[|out| - 1].Delivered?
    ensures Halfway(first, queue, left, out) ==> InOrder(first, Elements(queue), out)
  {
    hide Wrap, Payloads, InOrder;
  }

  lemma FlushStarts(first: SeqNumber, queue: multiset<Payload>, top: Payload)
    ensures Halfway(first, queue, queue, []) && Steps(first, queue, queue, top, [])
    ensures first == Wrap(first + 0)
  {
    HalfwayStart(first, queue);
    WrapCases(first + 0);
    assert Distance(Wrap(first + 0), top) < MODULUS;
    assert queue != multiset{} ==> |queue| >= 1;
    hide Wrap, Distance;
  }
}
