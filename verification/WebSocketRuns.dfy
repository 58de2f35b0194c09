/**
 What the WebSocket reader delivers does not depend on how the bytes were split, it is the
 frames that were sent, and the headers written are those section 5.2 of RFC 6455 describes.
 */
module WebSocketRuns {
  import opened Wrappers
  import opened Bytes
  import opened WebSocket
  import opened Sequences

  // ---------- Fragmentation ----------

  /** A head that can be read is read the same with more bytes behind it. */
  lemma HeadBehind(a: ByteString, b: ByteString)
    requires !ParseHeader(a).NeedMore?
    ensures ParseHeader(a + b) == ParseHeader(a)
  {
    hide FromBig;
    assert forall i :: 0 <= i < |a| ==> (a + b)[i] == a[i];
    if |a| >= 10 {
      assert (a + b)[2..10] == a[2..10];
    }
    assert (a + b)[2..4] == a[2..4];
    var h := ParseHeader(a);
    if h.Frame? {
      var start := h.size - |h.payload|;
      assert (a + b)[start..h.size] == a[start..h.size];
    }
  }

  /** Once the loop has stopped for good, later bytes just pile up. */
  lemma {:induction false} DrainBehind(a: ByteString, b: ByteString)
    ensures var d := Drain(a);
      Drain(a + b) == if d.stop.Waiting? then (var e := Drain(d.leftover + b); e.(events := d.events + e.events))
                      else d.(leftover := d.leftover + b)
    decreases |a|
  {
    var h := ParseHeader(a);
    if h.NeedMore? {
      EmptyAppend(Drain(a + b).events);
    } else {
      HeadBehind(a, b);
      if h.Frame? {
        assert (a + b)[h.size..] == a[h.size..] + b;
        DrainBehind(a[h.size..], b);
        var ev, rest := [EventOf(h.opcode, h.payload)], Drain(a[h.size..]);
        Append(ev, rest.events, Drain(rest.leftover + b).events);
      }
    }
  }

  /** Pieces are appended to the buffer and drained one by one, until the loop fails. */
  function FeedAll(buffer: ByteString, pieces: seq<ByteString>): Drained
    decreases |pieces|
  {
    if pieces == [] then Drained([], buffer, Waiting)
    else
      var d := Drain(buffer + pieces[0]);
      if !d.stop.Waiting? then d
      else
        var e := FeedAll(d.leftover, pieces[1..]);
        e.(events := d.events + e.events)
  }

  /** Nothing can be taken off the buffer. */
  predicate AtRest(buffer: ByteString) {
    ParseHeader(buffer).NeedMore?
  }

  lemma {:induction false} LeftoverRests(data: ByteString)
    ensures Drain(data).stop.Waiting? <==> AtRest(Drain(data).leftover)
    decreases |data|
  {
    var h := ParseHeader(data);
    if h.Frame? {
      LeftoverRests(data[h.size..]);
    }
  }

  /**
   However the bytes are split, the same events are delivered in the same order and the loop
   ends the same way; while it waits, the same bytes are left.
   */
  lemma {:induction false} AnyFragmentation(buffer: ByteString, pieces: seq<ByteString>) returns (unread: ByteString)
    requires AtRest(buffer)
    ensures var d, whole := FeedAll(buffer, pieces), Drain(buffer + Concat(pieces));
      && d.events == whole.events && d.stop == whole.stop
      && d.leftover + unread == whole.leftover
      && (d.stop.Waiting? ==> unread == [])
    decreases |pieces|
  {
    unread := [];
    if pieces == [] {
      assert buffer + [] == buffer;
    } else {
      var rest := Concat(pieces[1..]);
      var d := Drain(buffer + pieces[0]);
      Append(buffer, pieces[0], rest);
      DrainBehind(buffer + pieces[0], rest);
      LeftoverRests(buffer + pieces[0]);
      if d.stop.Waiting? {
        unread := AnyFragmentation(d.leftover, pieces[1..]);
      } else {
        unread := rest;
      }
    }
  }

  // ---------- Frames as a server sends them ----------

  datatype ServerFrame = ServerFrame(fin: bool, opcode: byte, payload: ByteString)

  predicate ReadOpcode(opcode: byte) {
    opcode == OP_CONTINUATION || opcode == OP_TEXT || opcode == OP_BINARY || opcode == OP_PING || opcode == OP_PONG
  }

  predicate ValidFrame(f: ServerFrame) {
    ReadOpcode(f.opcode) && |f.payload| < TWO_63
  }

  /** The payload length in its shortest form, without a mask. */
  function LengthField(len: word64): ByteString {
    if len <= 125 then [len] else if len <= 65535 then [126] + Big(len, 2) else [127] + Big(len, 8)
  }

  function FrameBytes(f: ServerFrame): ByteString
    requires ValidFrame(f)
  {
    [(if f.fin then 128 else 0) + f.opcode] + LengthField(|f.payload|) + f.payload
  }

  predicate ValidFrames(fs: seq<ServerFrame>) {
    forall f :: f in fs ==> ValidFrame(f)
  }

  function StreamBytes(fs: seq<ServerFrame>): ByteString
    requires ValidFrames(fs)
  {
    if fs == [] then [] else FrameBytes(fs[0]) + StreamBytes(fs[1..])
  }

  function EventsOf(fs: seq<ServerFrame>): seq<Event> {
    if fs == [] then [] else [EventOf(fs[0].opcode, fs[0].payload)] + EventsOf(fs[1..])
  }

  // ---------- Frames as the reader takes them ----------

  /** A frame whose length is written in any of the three forms: in no, two or eight more bytes. */
  datatype WireFrame = WireFrame(first: byte, width: nat, payload: ByteString)

  predicate Readable(f: WireFrame) {
    && ReadOpcode(f.first % 128)
    && (f.width == 0 || f.width == 2 || f.width == 8)
    && |f.payload| < if f.width == 0 then 126 else if f.width == 2 then 0x1_0000 else TWO_64
  }

  function WireField(f: WireFrame): ByteString
    requires Readable(f)
  {
    if f.width == 0 then [|f.payload|] else if f.width == 2 then [126] + Big(|f.payload|, 2) else [127] + Big(|f.payload|, 8)
  }

  function WireBytes(f: WireFrame): ByteString
    requires Readable(f)
  {
    [f.first] + WireField(f) + f.payload
  }

  /** A frame as sent is one whose length has the shortest form. */
  function WireOf(f: ServerFrame): (w: WireFrame)
    requires ValidFrame(f)
    ensures Readable(w) && WireBytes(w) == FrameBytes(f) && w.first % 128 == f.opcode
  {
    var len := |f.payload|;
    WireFrame((if f.fin then 128 else 0) + f.opcode, if len <= 125 then 0 else if len <= 65535 then 2 else 8, f.payload)
  }

  /** A frame is read as it was written once four bytes are there; one with a two-byte length, eight. */
  lemma WireRead(f: WireFrame, rest: ByteString)
    requires Readable(f) && |WireBytes(f) + rest| >= if f.width == 2 then 8 else 4
    ensures ParseHeader(WireBytes(f) + rest) == Frame(f.first % 128, f.payload, |WireBytes(f)|)
    ensures (WireBytes(f) + rest)[|WireBytes(f)|..] == rest
  {
    hide Big, FromBig, Pow256, ParseHeader, ReadOpcode;
    var field, data := WireField(f), WireBytes(f) + rest;
    FrameLayout([f.first], field, f.payload, rest);
    assert data[0] == f.first;
    FieldBytes(data, field);
    HeadRead(data, f);
  }

  /** A header that announces a payload, with the payload behind it. */
  lemma HeadRead(data: ByteString, f: WireFrame)
    requires Readable(f) && |data| >= if f.width == 2 then 8 else 4
    requires var field := WireField(f);
      var start := 1 + |field|;
      && start + |f.payload| <= |data| && data[0] == f.first && data[1] == field[0] && data[2..start] == field[1..]
      && data[start..start + |f.payload|] == f.payload
    ensures ParseHeader(data) == Frame(f.first % 128, f.payload, 1 + |WireField(f)| + |f.payload|)
  {
    hide Big, FromBig, Pow256;
    var len := |f.payload|;
    WidthBounds();
    if f.width == 2 {
      FromBigOfBig(len, 2);
      assert WireField(f)[1..] == Big(len, 2);
    } else if f.width == 8 {
      FromBigOfBig(len, 8);
      assert WireField(f)[1..] == Big(len, 8);
    }
  }

  /** A frame with at least four bytes of buffer behind its start is read as sent. */
  lemma FrameRead(f: ServerFrame, rest: ByteString)
    requires ValidFrame(f) && |FrameBytes(f) + rest| >= 4
    ensures ParseHeader(FrameBytes(f) + rest) == Frame(f.opcode, f.payload, |FrameBytes(f)|)
    ensures (FrameBytes(f) + rest)[|FrameBytes(f)|..] == rest
  {
    hide Big, FromBig, Pow256, ParseHeader;
    WireRead(WireOf(f), rest);
  }

  /** The bytes of the length field, in place. */
  lemma FieldBytes(data: ByteString, field: ByteString)
    requires 0 < |field| < |data| && data[1..1 + |field|] == field
    ensures data[1] == field[0] && data[2..1 + |field|] == field[1..]
  {
    assert data[1..1 + |field|][0] == data[1];
    assert data[1..1 + |field|][1..] == data[2..1 + |field|];
  }

  lemma FrameLayout(first: ByteString, field: ByteString, payload: ByteString, rest: ByteString)
    requires |first| == 1
    ensures var data := first + field + payload + rest;
      && data[..1] == first && data[1..1 + |field|] == field
      && data[1 + |field|..1 + |field| + |payload|] == payload
      && data[1 + |field| + |payload|..] == rest
  {
  }

  /**
   A whole stream delivers its frames in order, all but a last one of two or three bytes,
   which waits until four bytes are there.
   */
  lemma {:induction false} StreamDelivered(fs: seq<ServerFrame>) returns (k: nat)
    requires ValidFrames(fs)
    ensures k <= |fs| && k + 1 >= |fs| && |StreamBytes(fs[k..])| < 4
    ensures Drain(StreamBytes(fs)) == Drained(EventsOf(fs[..k]), StreamBytes(fs[k..]), Waiting)
  {
    if |StreamBytes(fs)| < 4 {
      k := 0;
      TwoFrames(fs);
      assert fs[0..] == fs;
      assert EventsOf(fs[..0]) == [];
    } else {
      var data, rest := StreamBytes(fs), StreamBytes(fs[1..]);
      FrameRead(fs[0], rest);
      assert Drain(data) == Drain(rest).(events := [EventOf(fs[0].opcode, fs[0].payload)] + Drain(rest).events);
      var j := StreamDelivered(fs[1..]);
      k := j + 1;
      assert fs[1..][j..] == fs[k..] && fs[..k][1..] == fs[1..][..j];
      assert EventsOf(fs[..k]) == [EventOf(fs[0].opcode, fs[0].payload)] + EventsOf(fs[1..][..j]);
    }
  }

  lemma TwoFrames(fs: seq<ServerFrame>)
    requires ValidFrames(fs)
    ensures |fs| >= 2 ==> |StreamBytes(fs)| >= 4
  {
    if |fs| >= 2 {
      assert StreamBytes(fs[1..]) == FrameBytes(fs[1]) + StreamBytes(fs[1..][1..]);
    }
  }

  /** Any front of a stream delivers a front of its frames, however it is split, and waits. */
  lemma PartialStreamDelivered(fs: seq<ServerFrame>, pieces: seq<ByteString>, missing: ByteString)
    requires ValidFrames(fs) && Concat(pieces) + missing == StreamBytes(fs)
    ensures var d := FeedAll([], pieces);
      d.stop.Waiting? && d.events <= EventsOf(fs)
    ensures missing == [] ==>
      var d := FeedAll([], pieces);
      |d.leftover| < 4 && |d.events| + 1 >= |fs|
  {
    var unread := AnyFragmentation([], pieces);
    EmptyAppend(Concat(pieces));
    DrainBehind(Concat(pieces), missing);
    var k := StreamDelivered(fs);
    EventsPrefix(fs, k);
    if missing == [] {
      assert Concat(pieces) + [] == Concat(pieces);
    }
  }

  lemma {:induction false} EventsPrefix(fs: seq<ServerFrame>, k: nat)
    requires k <= |fs|
    ensures |EventsOf(fs[..k])| == k && EventsOf(fs[..k]) <= EventsOf(fs)
  {
    if k > 0 {
      EventsPrefix(fs[1..], k - 1);
      assert fs[..k][1..] == fs[1..][..k - 1];
    }
  }

  // ---------- When the loop spins ----------

  predicate AllReadable(fs: seq<WireFrame>) {
    forall f :: f in fs ==> Readable(f)
  }

  function WireStream(fs: seq<WireFrame>): ByteString
    requires AllReadable(fs)
  {
    if fs == [] then [] else WireBytes(fs[0]) + WireStream(fs[1..])
  }

  function WireEvents(fs: seq<WireFrame>): seq<Event> {
    if fs == [] then [] else [EventOf(fs[0].first % 128, fs[0].payload)] + WireEvents(fs[1..])
  }

  /** Four bytes or more that begin with a header whose mask bit is set. */
  predicate MaskedHead(head: ByteString) {
    |head| >= 4 && ReadOpcode(head[0] % 128) && head[1] >= 128
  }

  /** Where the loop stops before its bytes run out: the opcode is checked before the mask. */
  predicate StopsAt(head: ByteString) {
    |head| >= 4 && (head[0] % 128 !in {0, 1, 2, 9, 10} || head[1] >= 128)
  }

  /** Number 8 gives the close code in the third and fourth byte, an unknown number an error; a masked frame is never passed. */
  function StopOf(head: ByteString): Stop
    requires StopsAt(head)
  {
    if head[0] % 128 == 8 then Error(256 * (head[2] as int) + head[3])
    else if head[0] % 128 !in {0, 1, 2, 9, 10} then Error(0)
    else Spinning
  }

  /** Whatever frames come before it, such a head is where the loop stops. */
  lemma {:induction false} StopsThere(fs: seq<WireFrame>, head: ByteString)
    requires AllReadable(fs) && StopsAt(head)
    ensures Drain(WireStream(fs) + head) == Drained(WireEvents(fs), head, StopOf(head))
    decreases |fs|
  {
    if fs == [] {
      EmptyAppend(head);
    } else {
      hide ParseHeader, WireBytes, StopOf;
      var first, rest := WireBytes(fs[0]), WireStream(fs[1..]);
      Append(first, rest, head);
      WireSize(fs[0]);
      WireRead(fs[0], rest + head);
      StopsThere(fs[1..], head);
    }
  }

  /** Number 9 goes to the ping handler, number 10 to the pong handler, and what else is read to the message handler, whole and in order. */
  lemma {:induction false} EventsAre(fs: seq<WireFrame>)
    ensures |WireEvents(fs)| == |fs|
    ensures forall i :: 0 <= i < |fs| ==>
      WireEvents(fs)[i] == if fs[i].first % 128 == 9 then Ping(fs[i].payload)
                           else if fs[i].first % 128 == 10 then Pong(fs[i].payload)
                           else Message(fs[i].payload)
    decreases |fs|
  {
    if fs != [] {
      EventsAre(fs[1..]);
      forall i | 1 <= i < |fs| ensures WireEvents(fs)[i] == WireEvents(fs[1..])[i - 1] && fs[i] == fs[1..][i - 1] {
      }
    }
  }

  /** Likewise for the frames of a server. */
  lemma {:induction false} ServerEventsAre(fs: seq<ServerFrame>)
    ensures |EventsOf(fs)| == |fs|
    ensures forall i :: 0 <= i < |fs| ==>
      EventsOf(fs)[i] == if fs[i].opcode == 9 then Ping(fs[i].payload)
                         else if fs[i].opcode == 10 then Pong(fs[i].payload)
                         else Message(fs[i].payload)
    decreases |fs|
  {
    if fs != [] {
      ServerEventsAre(fs[1..]);
      forall i | 1 <= i < |fs| ensures EventsOf(fs)[i] == EventsOf(fs[1..])[i - 1] && fs[i] == fs[1..][i - 1] {
      }
    }
  }

  /** Whatever frames come before it, a masked one is where the loop stays. */
  lemma MaskedSpins(fs: seq<WireFrame>, head: ByteString)
    requires AllReadable(fs) && MaskedHead(head)
    ensures Drain(WireStream(fs) + head) == Drained(WireEvents(fs), head, Spinning)
  {
    hide Drain, WireStream, WireEvents;
    StopsThere(fs, head);
  }

  lemma WireSize(f: WireFrame)
    requires Readable(f)
    ensures |WireBytes(f)| >= 2 + f.width
  {
  }

  /** A frame that was taken off the buffer, as it was written. */
  lemma FrameTaken(data: ByteString) returns (f: WireFrame)
    requires ParseHeader(data).Frame?
    ensures var h := ParseHeader(data);
      && Readable(f) && f.first % 128 == h.opcode && f.payload == h.payload
      && |WireBytes(f)| == h.size && data == WireBytes(f) + data[h.size..]
  {
    hide Big, FromBig, Pow256;
    var h := ParseHeader(data);
    f := WireFrame(data[0], if data[1] == 126 then 2 else if data[1] == 127 then 8 else 0, h.payload);
    WidthBounds();
    var start := h.size - |h.payload|;
    if f.width == 2 {
      BigOfFromBig(data[2..4]);
    } else if f.width == 8 {
      BigOfFromBig(data[2..10]);
    }
    HeadLayout(data, start, h.size);
  }

  lemma HeadLayout(data: ByteString, start: nat, size: nat)
    requires 2 <= start <= size <= |data|
    ensures data == [data[0]] + ([data[1]] + data[2..start]) + data[start..size] + data[size..]
    ensures start == 2 ==> [data[1]] + data[2..start] == [data[1]]
  {
  }

  /** Less than a frame: under four bytes, or a head whose length or payload is not all there. */
  predicate Unfinished(data: ByteString) {
    || |data| < 4
    || (!StopsAt(data) && data[1] <= 125 && |data| < 2 + data[1])
    || (!StopsAt(data) && data[1] == 126 && (|data| < 8 || |data| < 4 + FromBig(data[2..4])))
    || (!StopsAt(data) && data[1] == 127 && (|data| < 10 || |data| < 10 + FromBig(data[2..10])))
  }

  /** Nothing is taken of what is unfinished. */
  lemma UnfinishedWaits(data: ByteString)
    requires Unfinished(data)
    ensures Drain(data) == Drained([], data, Waiting)
  {
    hide FromBig;
  }

  /** Any bytes at all are whole frames, handed on in order, and then where the loop stops or what is unfinished. */
  lemma {:induction false} FramesBefore(data: ByteString) returns (fs: seq<WireFrame>)
    ensures AllReadable(fs) && data == WireStream(fs) + Drain(data).leftover && Drain(data).events == WireEvents(fs)
    ensures var d := Drain(data);
      if d.stop.Waiting? then Unfinished(d.leftover) else StopsAt(d.leftover) && d.stop == StopOf(d.leftover)
    decreases |data|
  {
    hide WireBytes, StopsAt, StopOf, Unfinished, ParseHeader;
    var h := ParseHeader(data);
    if h.Frame? {
      var f := FrameTaken(data);
      var rest := FramesBefore(data[h.size..]);
      fs := [f] + rest;
      assert fs[1..] == rest;
      Append(WireBytes(f), WireStream(rest), Drain(data).leftover);
    } else {
      fs := [];
      EmptyAppend(data);
      NoFrame(data);
    }
  }

  lemma NoFrame(data: ByteString)
    requires !ParseHeader(data).Frame?
    ensures var d := Drain(data);
      && d.events == [] && d.leftover == data
      && if d.stop.Waiting? then Unfinished(data) else StopsAt(data) && d.stop == StopOf(data)
  {
    hide FromBig;
  }

  lemma SpinsAtMask(head: ByteString)
    requires StopsAt(head) && StopOf(head).Spinning?
    ensures MaskedHead(head)
  {
  }

  ghost predicate HasMaskedFrame(data: ByteString) {
    exists fs, head :: AllReadable(fs) && MaskedHead(head) && data == WireStream(fs) + head
  }

  /** The loop spins just when the bytes are whole frames and then a masked one, of which four bytes are there. */
  lemma SpinsExactly(data: ByteString)
    ensures Drain(data).stop.Spinning? <==> HasMaskedFrame(data)
  {
    hide MaskedHead, WireStream, Drain;
    if HasMaskedFrame(data) {
      var fs, head :| AllReadable(fs) && MaskedHead(head) && data == WireStream(fs) + head;
      MaskedSpins(fs, head);
    }
    if Drain(data).stop.Spinning? {
      var fs := FramesBefore(data);
      assert MaskedHead(Drain(data).leftover) by { SpinsAtMask(Drain(data).leftover); }
    }
  }

  // ---------- The headers written ----------

  datatype Decoded = Decoded(fin: bool, opcode: byte, masked: bool, len: nat, key: ByteString, size: nat)

  /** Reads a frame header: flags, opcode, mask bit, length in one of three forms, masking key. */
  function DecodeHeader(b: ByteString): Option<Decoded> {
    if |b| < 2 then None
    else
      var masked := b[1] >= 128;
      var short := b[1] % 128;
      var width := if short == 126 then 2 else if short == 127 then 8 else 0;
      var keyed := 2 + width + (if masked then 4 else 0);
      if |b| < keyed then None
      else
        var len := if width == 0 then short else FromBig(b[2..2 + width]);
        Some(Decoded(b[0] >= 128, b[0] % 16, masked, len, b[2 + width..keyed], keyed))
  }

  /** The header written for a message is a final, masked header of its length with a zero key. */
  lemma HeaderDecodes(len: word64, opcode: byte, rest: ByteString)
    requires opcode < 16
    ensures DecodeHeader(Header(len, opcode) + rest)
         == Some(Decoded(true, opcode, true, len, [0, 0, 0, 0], HeaderSize(len)))
  {
    WidthBounds();
    hide Big, FromBig, Pow256;
    var b := Header(len, opcode) + rest;
    if len <= 125 {
      assert b[2..6] == [0, 0, 0, 0];
    } else if len <= 65535 {
      FromBigOfBig(len, 2);
      HeaderLayout([128 + opcode, 128 + 126], Big(len, 2), rest);
    } else {
      FromBigOfBig(len, 8);
      HeaderLayout([128 + opcode, 128 + 127], Big(len, 8), rest);
    }
  }

  lemma HeaderLayout(head: ByteString, field: ByteString, rest: ByteString)
    requires |head| == 2
    ensures var b := [head[0]] + ([head[1]] + field) + [0, 0, 0, 0] + rest;
      && |b| >= 6 + |field| && b[0] == head[0] && b[1] == head[1]
      && b[2..2 + |field|] == field && b[2 + |field|..6 + |field|] == [0, 0, 0, 0]
  {
  }

  /** No masked header of the same length is shorter. */
  lemma HeaderMinimal(b: ByteString)
    requires DecodeHeader(b).Some? && DecodeHeader(b).value.masked
    ensures HeaderSize(DecodeHeader(b).value.len) <= DecodeHeader(b).value.size
  {
    WidthBounds();
  }
}
