/** WebSocket framing: the header written before each message, and the reader of received frames. */
module WebSocket {
  import opened Wrappers
  import opened Bytes
  import opened Sequences

  const OP_CONTINUATION: byte := 0
  const OP_TEXT: byte := 1
  const OP_BINARY: byte := 2
  const OP_CLOSE: byte := 8
  const OP_PING: byte := 9
  const OP_PONG: byte := 10

  // ---------- Sending ----------

  /** How many bytes the header of a message of `len` bytes takes. */
  function HeaderSize(len: nat): nat {
    if len <= 125 then 6 else if len <= 65535 then 8 else 14
  }

  function Header(len: word64, opcode: byte): (h: ByteString)
    requires opcode < 16
    ensures |h| == HeaderSize(len)
  {
    var length :=
      if len <= 125 then [128 + len]
      else if len <= 65535 then [128 + 126] + Big(len, 2)
      else [128 + 127] + Big(len, 8);
    [128 + opcode] + length + [0, 0, 0, 0]
  }

  /** The header's length when it has been written into `outbuf`, or nothing where it runs past the end of it. */
  method FillHeader(outbuf: array<byte>, sendlength: word64, opcode: byte) returns (size: Option<nat>)
    requires opcode < 16
    modifies outbuf
    ensures size.Some? <==> HeaderSize(sendlength) <= outbuf.Length
    ensures size.Some? ==> size.value == HeaderSize(sendlength)
    ensures size.Some? ==> forall k :: 0 <= k < outbuf.Length ==>
      outbuf[k] == if k < size.value then Header(sendlength, opcode)[k] else old(outbuf[k])
  {
    if outbuf.Length < HeaderSize(sendlength) {
      return None;
    }
    var pos := WriteHeader(outbuf, sendlength, opcode);
    size := Some(pos);
  }

  const MAX_HEADER_SIZE := 10

  /** A frame as every sender makes it, with so much room for its header; nothing if that is overrun. */
  method MakeFrame(data: ByteString, opcode: byte) returns (frame: Option<ByteString>)
    requires opcode < 16 && |data| < TWO_64
    ensures frame.Some? <==> |data| <= 65535
    ensures frame.Some? ==> frame.value == Header(|data|, opcode) + data
  {
    hide Header;
    var out := new byte[MAX_HEADER_SIZE];
    var size := FillHeader(out, |data|, opcode);
    if size.None? {
      return None;
    }
    assert out[..size.value] == Header(|data|, opcode);
    frame := Some(out[..size.value] + data);
  }

  method WriteHeader(outbuf: array<byte>, sendlength: word64, opcode: byte) returns (pos: nat)
    requires opcode < 16 && outbuf.Length >= HeaderSize(sendlength)
    modifies outbuf
    ensures pos == HeaderSize(sendlength)
    ensures forall k :: 0 <= k < outbuf.Length ==>
      outbuf[k] == if k < pos then Header(sendlength, opcode)[k] else old(outbuf[k])
  {
    hide Big, Header;
    HeaderBytes(sendlength, opcode);
    pos := 0;
    outbuf[pos] := 128 + opcode;
    pos := pos + 1;
    if sendlength <= 125 {
      outbuf[pos] := sendlength;
      pos := pos + 1;
    } else if sendlength <= 65535 {
      outbuf[pos] := 126;
      outbuf[pos + 1] := sendlength / 256 % 256;
      outbuf[pos + 2] := sendlength % 256;
      pos := pos + 3;
      TwoBytes(sendlength);
    } else {
      outbuf[pos] := 127;
      pos := pos + 1;
      FillLength(outbuf, pos, sendlength);
      pos := pos + 8;
    }
    outbuf[1] := outbuf[1] + 128;
    outbuf[pos], outbuf[pos + 1], outbuf[pos + 2], outbuf[pos + 3] := 0, 0, 0, 0;
    pos := pos + 4;
  }

  /** The bytes of a header, place by place. */
  lemma HeaderBytes(len: word64, opcode: byte)
    requires opcode < 16
    ensures var h, n := Header(len, opcode), HeaderSize(len);
      && h[0] == 128 + opcode
      && h[1] == 128 + (if len <= 125 then len else if len <= 65535 then 126 else 127)
      && (forall k :: 2 <= k < n - 4 ==> h[k] == Big(len, n - 6)[k - 2])
      && h[n - 4] == 0 && h[n - 3] == 0 && h[n - 2] == 0 && h[n - 1] == 0
  {
    hide Big;
  }

  /** The eight bytes of the length, most significant first. */
  method FillLength(outbuf: array<byte>, start: nat, len: word64)
    requires start + 8 <= outbuf.Length
    modifies outbuf
    ensures forall k :: 0 <= k < outbuf.Length ==>
      outbuf[k] == if start <= k < start + 8 then Big(len, 8)[k - start] else old(outbuf[k])
  {
    hide Big;
    ghost var digits := Big(len, 8);
    var pos, i := start, 8;
    while i > 0
      invariant 0 <= i <= 8 && pos == start + 8 - i
      invariant forall k :: 0 <= k < start ==> outbuf[k] == old(outbuf[k])
      invariant forall k :: start <= k < pos ==> outbuf[k] == digits[k - start]
      invariant forall k :: start + 8 <= k < outbuf.Length ==> outbuf[k] == old(outbuf[k])
    {
      i := i - 1;
      BigAt(len, 8, 7 - i);
      outbuf[pos] := len / Pow256(i) % 256;
      pos := pos + 1;
    }
  }

  lemma TwoBytes(n: nat)
    ensures Big(n, 2) == [n / 256 % 256, n % 256]
  {
    assert Big(n / 256, 1) == [n / 256 % 256] by {
      assert Big(n / 256 / 256, 0) == [];
    }
  }

  lemma {:induction false} BigAt(n: nat, k: nat, i: nat)
    requires i < k
    ensures Big(n, k)[i] == n / Pow256(k - 1 - i) % 256
  {
    if i < k - 1 {
      BigAt(n / 256, k - 1, i);
      DivDiv(n, Pow256(k - 2 - i));
    }
  }

  lemma DivDiv(n: nat, m: nat)
    requires m > 0
    ensures n / 256 / m == n / (256 * m)
  {
    var q, a := n / 256, n / 256 / m;
    assert n == (256 * m) * a + (256 * (q % m) + n % 256) by {
      assert q == m * a + q % m;
      assert 256 * (m * a) == (256 * m) * a;
    }
    assert 256 * (q % m) + n % 256 < 256 * m;
    DivisionIsUnique(n, 256 * m, a, 256 * (q % m) + n % 256);
  }

  // ---------- Receiving ----------

  /** What the bytes received so far begin with. */
  datatype Head =
    | NeedMore
    | Masked
    | Frame(opcode: byte, payload: ByteString, size: nat)
    | Close(code: nat)
    | BadOpcode

  function ParseHeader(data: ByteString): (h: Head)
    ensures h.Frame? ==> 0 < h.size <= |data|
  {
    if |data| < 4 then NeedMore
    else
      var opcode := data[0] % 128;
      if opcode == OP_CLOSE then Close(256 * (data[2] as int) + data[3])
      else if opcode != OP_CONTINUATION && opcode != OP_TEXT && opcode != OP_BINARY && opcode != OP_PING && opcode != OP_PONG then BadOpcode
      else if data[1] >= 128 then Masked
      else if data[1] == 126 && |data| < 8 then NeedMore
      else if data[1] == 127 && |data| < 10 then NeedMore
      else
        var len := if data[1] == 126 then FromBig(data[2..4]) else if data[1] == 127 then FromBig(data[2..10]) else data[1];
        var start := if data[1] == 126 then 4 else if data[1] == 127 then 10 else 2;
        if |data| < start + len then NeedMore else Frame(opcode, data[start..start + len], start + len)
  }

  /** A frame handed on: to the message handler, or to the ping and pong handler. */
  datatype Event = Message(payload: ByteString) | Ping(payload: ByteString) | Pong(payload: ByteString)

  function EventOf(opcode: byte, payload: ByteString): Event {
    if opcode == OP_PING then Ping(payload) else if opcode == OP_PONG then Pong(payload) else Message(payload)
  }

  /** Why the loop over the buffer ends, or that it never does. */
  datatype Stop = Waiting | Error(code: nat) | Spinning

  datatype Drained = Drained(events: seq<Event>, leftover: ByteString, stop: Stop)

  /**
   The loop that takes frames off the buffer until it cannot. A masked frame is reported as
   handled but not removed, so the loop would meet it forever.
   */
  function Drain(data: ByteString): Drained {
    match ParseHeader(data)
    case NeedMore => Drained([], data, Waiting)
    case Masked => Drained([], data, Spinning)
    case Close(code) => Drained([], data, Error(code))
    case BadOpcode => Drained([], data, Error(0))
    case Frame(opcode, payload, size) =>
      var rest := Drain(data[size..]);
      rest.(events := [EventOf(opcode, payload)] + rest.events)
  }

  /** The receiving side: the buffer is owned by the socket, the handlers record what they get. */
  class WebSocketClient {
    var events: seq<Event>

    constructor ()
      ensures events == []
    {
      events := [];
    }

    /** Takes one frame off the front, if it can; says whether to try again. */
    method ParseHead(data: ByteString) returns (rest: ByteString, again: bool, error: Option<nat>)
      modifies this
      ensures var h := ParseHeader(data);
        && (again <==> h.Frame? || h.Masked?)
        && rest == (if h.Frame? then data[h.size..] else data)
        && events == old(events) + (if h.Frame? then [EventOf(h.opcode, h.payload)] else [])
        && error == (if h.Close? then Some(h.code) else if h.BadOpcode? then Some(0) else None)
    {
      rest, again, error := data, false, None;
      if |data| < 4 {
        return;
      }
      var opcode := data[0] % 128;
      if opcode == OP_CLOSE {
        error := Some(256 * (data[2] as int) + data[3]);
        return;
      }
      if opcode != OP_CONTINUATION && opcode != OP_TEXT && opcode != OP_BINARY && opcode != OP_PING && opcode != OP_PONG {
        error := Some(0);
        return;
      }
      var len1 := data[1];
      var payloadStart := 2;
      if len1 >= 128 {
        again := true;
        return;
      }
      if (len1 == 126 && |data| < 8) || (len1 == 127 && |data| < 10) {
        return;
      }
      var len: nat := len1;
      if len1 == 126 {
        len := 256 * (data[2] as int) + data[3];
        TwoByteValue(data[2..4]);
        payloadStart := payloadStart + 2;
      } else if len1 == 127 {
        len := HugeLength(data);
        payloadStart := payloadStart + 8;
      }
      if |data| < payloadStart + len {
        return;
      }
      events := events + [EventOf(opcode, data[payloadStart..payloadStart + len])];
      rest := data[payloadStart + len..];
      again := true;
    }

    /** Collects the eight length bytes, most significant first. */
    method HugeLength(data: ByteString) returns (len: nat)
      requires |data| >= 10
      ensures len == FromBig(data[2..10])
    {
      len := 0;
      var v := 2;
      while v < 10
        invariant 2 <= v <= 10 && len == FromBig(data[2..v])
      {
        SliceExtends(data, 2, v);
        assert data[2..v + 1][..v - 2] == data[2..v];
        len := 256 * len + data[v];
        v := v + 1;
      }
    }

    /** Processes packets until it cannot, or tells that it would go on forever. */
    method HandleBuffer(data: ByteString) returns (buffer: ByteString, stop: Stop)
      modifies this
      ensures events == old(events) + Drain(data).events
      ensures buffer == Drain(data).leftover && stop == Drain(data).stop
    {
      buffer, stop := data, Waiting;
      var again := true;
      ghost var start := events;
      while again
        invariant again ==> stop == Waiting
        invariant again ==> events + Drain(buffer).events == start + Drain(data).events
        invariant again ==> Drain(buffer).leftover == Drain(data).leftover && Drain(buffer).stop == Drain(data).stop
        invariant !again ==> events == start + Drain(data).events && buffer == Drain(data).leftover && stop == Drain(data).stop
        decreases again, |buffer|
      {
        ghost var head, so := ParseHeader(buffer), events;
        var rest, more, error := ParseHead(buffer);
        if head.Frame? {
          Append(so, [EventOf(head.opcode, head.payload)], Drain(rest).events);
        }
        if more && |rest| == |buffer| {
          stop := Spinning;
          again := false;
        } else if more {
          buffer := rest;
        } else {
          again := false;
          if error.Some? {
            stop := Error(error.value);
          }
        }
      }
    }
  }

  lemma TwoByteValue(s: ByteString)
    requires |s| == 2
    ensures FromBig(s) == 256 * (s[0] as int) + s[1]
  {
    assert FromBig(s[..1]) == s[0] by {
      assert s[..1][..0] == [] && FromBig([]) == 0;
    }
  }
}
