/**
 The incremental reader of an HTTP response body: bytes arrive in pieces of any size, and
 each piece is consumed as far as the state machine can take it.
 */
module HttpChunked {
  import opened Wrappers
  import opened Bytes

  datatype HttpState = ChunkLen | ChunkContent | ChunkTrailer | ChunkLast | Content | Done

  /** The reader's fields, and the bytes received but not consumed. */
  datatype Fields = Reader(
    state: HttpState,
    body: ByteString,
    chunkSize: nat,
    chunkReceive: nat,
    contentLength: nat,
    keepalive: bool,
    buffer: ByteString)

  /** Within a chunk no more is received than the chunk holds. */
  type Reader = r: Fields | r.state.ChunkContent? ==> r.chunkReceive <= r.chunkSize
    witness Reader(ChunkLen, [], 0, 0, 0, true, [])

  // ---------- Chunk sizes ----------

  /** Where "\r\n" first occurs, if it does. */
  function FindCrLf(b: ByteString): (r: Option<nat>)
    ensures r.Some? ==> r.value + 2 <= |b| && b[r.value] == 13 && b[r.value + 1] == 10
    ensures r.Some? ==> forall i :: 0 <= i < r.value ==> !(b[i] == 13 && b[i + 1] == 10)
    ensures r.None? ==> forall i :: 0 <= i < |b| - 1 ==> !(b[i] == 13 && b[i + 1] == 10)
  {
    if |b| < 2 then None
    else if b[0] == 13 && b[1] == 10 then Some(0)
    else
      match FindCrLf(b[1..])
      case None => None
      case Some(i) =>
        assert forall k :: 0 < k <= i ==> b[k] == b[1..][k - 1];
        Some(i + 1)
  }

  function HexDigit(b: byte): Option<nat> {
    if '0' as int <= b <= '9' as int then Some(b - '0' as int)
    else if 'a' as int <= b <= 'f' as int then Some(b - 'a' as int + 10)
    else if 'A' as int <= b <= 'F' as int then Some(b - 'A' as int + 10)
    else None
  }

  /** The value of the leading hexadecimal digits of `s`, after those already worth `acc`. */
  function HexPrefix(s: ByteString, acc: nat): nat {
    if s == [] || HexDigit(s[0]).None? then acc
    else HexPrefix(s[1..], 16 * acc + HexDigit(s[0]).value)
  }

  predicate IsSpace(b: byte) {
    b == 32 || 9 <= b <= 13
  }

  function SkipSpace(s: ByteString): ByteString {
    if s != [] && IsSpace(s[0]) then SkipSpace(s[1..]) else s
  }

  /** Base-16 conversion of text to an int: space, sign, 0x prefix, digits; what follows is ignored. */
  function Stoi16(s: ByteString): (r: Option<int>)
    ensures r.Some? ==> -TWO_31 <= r.value < TWO_31
  {
    var t := SkipSpace(s);
    var negative := t != [] && t[0] == '-' as int;
    var u := if t != [] && (t[0] == '-' as int || t[0] == '+' as int) then t[1..] else t;
    var v := if |u| >= 3 && u[0] == '0' as int && (u[1] == 'x' as int || u[1] == 'X' as int) && HexDigit(u[2]).Some? then u[2..] else u;
    if v == [] || HexDigit(v[0]).None? then None
    else
      var n: int := HexPrefix(v, 0) * (if negative then -1 else 1);
      if -TWO_31 <= n < TWO_31 then Some(n) else None
  }

  // ---------- One turn of the loop ----------

  datatype Outcome = Again | Wait | Stop

  predicate StartsWithCrLf(b: ByteString) {
    |b| >= 2 && b[0] == 13 && b[1] == 10
  }

  /** One pass of the do-while body: loop again, return true, or return false. */
  function Turn(r: Reader): (Reader, Outcome) {
    match r.state
    case ChunkContent =>
      var toRead := if r.chunkReceive + |r.buffer| > r.chunkSize then r.chunkSize - r.chunkReceive else |r.buffer|;
      var r' := r.(body := r.body + r.buffer[..toRead], chunkReceive := r.chunkReceive + toRead, buffer := r.buffer[toRead..]);
      if r'.chunkReceive >= r'.chunkSize then (r'.(state := ChunkTrailer), Again) else (r', Wait)
    case ChunkLast =>
      if StartsWithCrLf(r.buffer) then (r.(state := Done), Stop) else (r, Wait)
    case ChunkTrailer =>
      if StartsWithCrLf(r.buffer) then (r.(state := ChunkLen, buffer := r.buffer[2..]), Again) else (r, Wait)
    case ChunkLen =>
      (match FindCrLf(r.buffer)
       case None => (r, Wait)
       case Some(i) =>
         var rest := r.(chunkReceive := 0, buffer := r.buffer[i + 2..]);
         (match Stoi16(r.buffer[..i])
          case None => (rest.(keepalive := false), Stop)
          case Some(n) =>
            if n == 0 then (rest.(state := ChunkLast, chunkSize := 2), Again)
            else (rest.(state := ChunkContent, chunkSize := n % TWO_64), Again)))
    case Content =>
      var r' := r.(body := r.body + r.buffer, buffer := []);
      if |r'.body| >= r'.contentLength then (r'.(state := Done), Stop) else (r', Wait)
    case Done => (r, Stop)
  }

  function Rank(s: HttpState): nat {
    match s
    case ChunkLen => 2
    case ChunkContent => 4
    case ChunkTrailer => 3
    case ChunkLast => 1
    case Content => 1
    case Done => 0
  }

  /** Turning again always leaves less to do: the buffer shrinks or a chunk moves on. */
  lemma TurnProgress(r: Reader)
    requires Turn(r).1.Again?
    ensures 3 * |Turn(r).0.buffer| + Rank(Turn(r).0.state) < 3 * |r.buffer| + Rank(r.state)
  {
  }

  /** The whole loop. The flag is false when the connection is to be closed. */
  function Drain(r: Reader): (Reader, bool)
    decreases 3 * |r.buffer| + Rank(r.state)
  {
    var (r', outcome) := Turn(r);
    match outcome
    case Again =>
      TurnProgress(r);
      Drain(r')
    case Wait => (r', true)
    case Stop => (r', false)
  }

  /** A piece arrives and the loop runs. */
  function Feed(r: Reader, piece: ByteString): (Reader, bool) {
    Drain(r.(buffer := r.buffer + piece))
  }

  /** Pieces arrive one after another until the connection is closed. */
  function FeedAll(r: Reader, pieces: seq<ByteString>): (Reader, bool)
    decreases |pieces|
  {
    if pieces == [] then (r, true)
    else
      var (r', open) := Feed(r, pieces[0]);
      if open then FeedAll(r', pieces[1..]) else (r', false)
  }

  // ---------- The client object ----------

  class HttpsClient {
    var state: HttpState
    var body: ByteString
    var chunkSize: nat
    var chunkReceive: nat
    var contentLength: nat
    var keepalive: bool

    predicate Valid()
      reads this
    {
      state.ChunkContent? ==> chunkReceive <= chunkSize
    }

    function View(buffer: ByteString): Reader
      requires Valid()
      reads this
    {
      Reader(state, body, chunkSize, chunkReceive, contentLength, keepalive, buffer)
    }

    /** A client whose headers announced a body. */
    constructor (chunked: bool, contentLength: nat)
      ensures Valid()
      ensures View([]) == Reader(if chunked then ChunkLen else Content, [], 0, 0, contentLength, true, [])
    {
      state := if chunked then ChunkLen else Content;
      body := [];
      chunkSize, chunkReceive := 0, 0;
      this.contentLength := contentLength;
      keepalive := true;
    }

    method HandleBuffer(input: ByteString) returns (buffer: ByteString, open: bool)
      requires Valid()
      modifies this
      ensures Valid() && (View(buffer), open) == Drain(old(View(input)))
    {
      buffer := input;
      var outcome := Again;
      while outcome.Again?
        invariant Valid()
        invariant outcome.Again? ==> Drain(View(buffer)) == Drain(old(View(input)))
        invariant !outcome.Again? ==> (View(buffer), outcome.Wait?) == Drain(old(View(input)))
        decreases outcome.Again?, 3 * |buffer| + Rank(state)
      {
        ghost var before := View(buffer);
        buffer, outcome := HandleState(buffer);
        if outcome.Again? {
          TurnProgress(before);
        }
      }
      open := outcome.Wait?;
    }

    /** The switch on the state. */
    method HandleState(input: ByteString) returns (buffer: ByteString, outcome: Outcome)
      requires Valid()
      modifies this
      ensures Valid() && (View(buffer), outcome) == Turn(old(View(input)))
    {
      buffer, outcome := input, Wait;
      match state {
        case ChunkContent =>
          var toRead := |buffer|;
          if chunkReceive + |buffer| > chunkSize {
            toRead := chunkSize - chunkReceive;
          }
          body := body + buffer[..toRead];
          chunkReceive := chunkReceive + toRead;
          buffer := buffer[toRead..];
          if chunkReceive >= chunkSize {
            state := ChunkTrailer;
            outcome := Again;
          }
        case ChunkLast =>
          if StartsWithCrLf(buffer) {
            state := Done;
            outcome := Stop;
          }
        case ChunkTrailer =>
          if StartsWithCrLf(buffer) {
            state := ChunkLen;
            buffer := buffer[2..];
            outcome := Again;
          }
        case ChunkLen =>
          var found := FindCrLf(buffer);
          if found.Some? {
            chunkReceive := 0;
            var text := buffer[..found.value];
            buffer := buffer[found.value + 2..];
            var size := Stoi16(text);
            if size.None? {
              keepalive := false;
              return buffer, Stop;
            }
            if size.value == 0 {
              state := ChunkLast;
              chunkSize := 2;
            } else {
              state := ChunkContent;
              chunkSize := size.value % TWO_64;
            }
            outcome := Again;
          }
        case Content =>
          body := body + buffer;
          buffer := [];
          if |body| >= contentLength {
            state := Done;
            outcome := Stop;
          }
        case Done =>
          outcome := Stop;
      }
    }
  }
}
