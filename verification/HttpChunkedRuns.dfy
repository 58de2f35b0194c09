/**
 How bytes are split into pieces does not matter to the body reader, and what it collects
 from a stream of chunks, as section 7.1 of RFC 9112 frames them, is their contents.
 */
module HttpChunkedRuns {
  import opened Wrappers
  import opened Bytes
  import opened HttpChunked
  import opened Sequences

  // ---------- Fragmentation ----------

  /** Bytes that arrive behind the unconsumed ones. */
  function Behind(r: Reader, more: ByteString): Reader {
    r.(buffer := r.buffer + more)
  }

  lemma {:induction false} FindCrLfExtends(b: ByteString, more: ByteString)
    requires FindCrLf(b).Some?
    ensures FindCrLf(b + more) == FindCrLf(b)
  {
    if !(b[0] == 13 && b[1] == 10) {
      assert (b + more)[1..] == b[1..] + more;
      FindCrLfExtends(b[1..], more);
    }
  }

  /** A turn that loops again does the same with more bytes behind. */
  lemma TurnBehind(r: Reader, more: ByteString)
    requires Turn(r).1.Again?
    ensures Turn(Behind(r, more)) == (Behind(Turn(r).0, more), Again)
  {
    hide Stoi16, FindCrLf;
    var b := r.buffer;
    match r.state
    case ChunkLen =>
      FindCrLfExtends(b, more);
      Front(b, more, FindCrLf(b).value);
      Front(b, more, FindCrLf(b).value + 2);
    case ChunkTrailer => Front(b, more, 2);
    case ChunkContent => Front(b, more, r.chunkSize - r.chunkReceive);
    case _ =>
  }

  lemma Front(b: ByteString, more: ByteString, n: nat)
    requires n <= |b|
    ensures (b + more)[..n] == b[..n] && (b + more)[n..] == b[n..] + more
  {
  }

  /** A turn that waits can be taken up when more bytes come, as if they had been there. */
  lemma WaitBehind(r: Reader, more: ByteString)
    requires Turn(r).1.Wait?
    ensures Drain(Behind(r, more)) == Drain(Behind(Turn(r).0, more))
  {
    hide Stoi16, FindCrLf;
    var r' := Turn(r).0;
    if r.state.ChunkContent? {
      var b := r.buffer;
      assert r'.buffer == [] && r'.body == r.body + b;
      var left := r'.chunkSize - r'.chunkReceive;
      var take := if |more| > left then left else |more|;
      assert (b + more)[..|b| + take] == b + more[..take] && (b + more)[|b| + take..] == more[take..];
      Append(r.body, b, more[..take]);
      EmptyAppend(more);
      assert Turn(Behind(r, more)) == Turn(Behind(r', more));
    } else if r.state.Content? {
      Append(r.body, r.buffer, more);
      EmptyAppend(more);
      assert Turn(Behind(r, more)) == Turn(Behind(r', more));
    }
  }

  /** A closed connection leaves later bytes in the buffer; an unchunked body swallows them. */
  function Closed(r: Reader, start: HttpState, more: ByteString): Reader {
    if start.Content? then r.(body := r.body + more) else Behind(r, more)
  }

  lemma StopBehind(r: Reader, more: ByteString)
    requires Turn(r).1.Stop?
    ensures Turn(Behind(r, more)) == (Closed(Turn(r).0, r.state, more), Stop)
  {
    var b := r.buffer;
    match r.state
    case ChunkLen =>
      FindCrLfExtends(b, more);
      var i := FindCrLf(b).value;
      assert (b + more)[..i] == b[..i] && (b + more)[i + 2..] == b[i + 2..] + more;
    case Content => Append(r.body, b, more);
    case _ =>
  }

  lemma {:induction false} DrainBehind(r: Reader, more: ByteString)
    ensures var (r', open) := Drain(r);
      Drain(Behind(r, more)) == if open then Drain(Behind(r', more)) else (Closed(r', r.state, more), false)
    decreases 3 * |r.buffer| + Rank(r.state)
  {
    match Turn(r).1
    case Again =>
      TurnBehind(r, more);
      TurnProgress(r);
      DrainBehind(Turn(r).0, more);
    case Wait => WaitBehind(r, more);
    case Stop => StopBehind(r, more);
  }

  /** Nothing more can be done with the bytes at hand. */
  predicate AtRest(r: Reader) {
    Drain(r) == (r, true)
  }

  lemma {:induction false} DrainRests(r: Reader)
    requires Drain(r).1
    ensures AtRest(Drain(r).0) && Turn(Drain(r).0) == (Drain(r).0, Wait)
    decreases 3 * |r.buffer| + Rank(r.state)
  {
    if Turn(r).1.Again? {
      TurnProgress(r);
      DrainRests(Turn(r).0);
    } else if r.state.ChunkContent? || r.state.Content? {
      var r' := Turn(r).0;
      assert r'.buffer == [] && r'.body + [] == r'.body;
    }
  }

  /**
   Any pieces of a byte string have the effect of the whole string at once: the same state
   and body, and the same unconsumed bytes while the connection is open. Once it is closed
   the pieces that were never fed stay unread behind the rest.
   */
  lemma {:induction false} AnyFragmentation(r: Reader, pieces: seq<ByteString>) returns (unread: ByteString)
    requires AtRest(r)
    ensures var (a, open) := FeedAll(r, pieces);
      && (open ==> unread == [] && AtRest(a))
      && Feed(r, Concat(pieces)) == (if open then (a, true) else (Closed(a, r.state, unread), false))
    decreases |pieces|
  {
    unread := [];
    if pieces == [] {
      assert r.buffer + [] == r.buffer;
    } else {
      var rest := Concat(pieces[1..]);
      var (r', open) := Feed(r, pieces[0]);
      Append(r.buffer, pieces[0], rest);
      DrainBehind(Behind(r, pieces[0]), rest);
      if open {
        DrainRests(Behind(r, pieces[0]));
        DrainState(Behind(r, pieces[0]));
        unread := AnyFragmentation(r', pieces[1..]);
      } else {
        unread := rest;
      }
    }
  }

  /** A chunked reader stays chunked, and an unchunked one unchunked. */
  lemma {:induction false} DrainState(r: Reader)
    requires Drain(r).1
    ensures Drain(r).0.state.Content? <==> r.state.Content?
    decreases 3 * |r.buffer| + Rank(r.state)
  {
    if Turn(r).1.Again? {
      TurnProgress(r);
      DrainState(Turn(r).0);
    }
  }

  /** Two ways of splitting the same chunked bytes leave the same state and body. */
  lemma SplitsAgree(r: Reader, pieces: seq<ByteString>, others: seq<ByteString>)
    requires AtRest(r) && !r.state.Content? && Concat(pieces) == Concat(others)
    ensures var (a, open) := FeedAll(r, pieces);
      var (b, open') := FeedAll(r, others);
      open == open' && a.state == b.state && a.body == b.body && (open ==> a == b)
  {
    var u := AnyFragmentation(r, pieces);
    var v := AnyFragmentation(r, others);
  }

  // ---------- Streams of chunks ----------

  const CRLF: ByteString := [13, 10]

  /** A chunk: its size line, which may carry an extension, and its data. */
  datatype Chunk = Chunk(line: ByteString, data: ByteString)

  predicate NoCrLf(line: ByteString) {
    forall i :: 0 <= i < |line| - 1 ==> !(line[i] == 13 && line[i + 1] == 10)
  }

  predicate ValidChunk(c: Chunk) {
    NoCrLf(c.line) && c.data != [] && Stoi16(c.line) == Some(|c.data|)
  }

  predicate ValidLast(line: ByteString) {
    NoCrLf(line) && Stoi16(line) == Some(0)
  }

  function ChunkBytes(c: Chunk): ByteString {
    c.line + CRLF + c.data + CRLF
  }

  /** The chunks, the last-chunk line, and no trailer fields. */
  function Stream(chunks: seq<Chunk>, last: ByteString): ByteString {
    if chunks == [] then last + CRLF + CRLF else ChunkBytes(chunks[0]) + Stream(chunks[1..], last)
  }

  function Payload(chunks: seq<Chunk>): ByteString {
    if chunks == [] then [] else chunks[0].data + Payload(chunks[1..])
  }

  lemma {:induction false} FindLineEnd(line: ByteString, rest: ByteString)
    requires NoCrLf(line)
    ensures FindCrLf(line + (CRLF + rest)) == Some(|line|)
  {
    var b := line + (CRLF + rest);
    if line != [] {
      assert b[1..] == line[1..] + (CRLF + rest);
      FindLineEnd(line[1..], rest);
    }
  }

  /** The size line is taken off the buffer. */
  lemma SizeLine(r: Reader, line: ByteString, rest: ByteString)
    requires r.state.ChunkLen? && NoCrLf(line) && r.buffer == line + (CRLF + rest)
    ensures FindCrLf(r.buffer) == Some(|line|) && r.buffer[..|line|] == line && r.buffer[|line| + 2..] == rest
  {
    FindLineEnd(line, rest);
  }

  /** One whole chunk in front is consumed and its data added to the body. */
  lemma DrainChunk(r: Reader, c: Chunk, rest: ByteString) returns (r': Reader)
    requires r.state.ChunkLen? && ValidChunk(c) && r.buffer == ChunkBytes(c) + rest
    ensures r'.state.ChunkLen? && r'.buffer == rest && r'.body == r.body + c.data && r'.keepalive == r.keepalive
    ensures Drain(r) == Drain(r')
  {
    hide FindCrLf, Stoi16, Drain;
    var tail := c.data + (CRLF + rest);
    ChunkSplit(c, rest);
    SizeLine(r, c.line, tail);
    var n := |c.data|;
    var r1: Reader := r.(state := ChunkContent, chunkReceive := 0, chunkSize := n, buffer := tail);
    assert Turn(r) == (r1, Again) by {
      assert n % TWO_64 == n;
    }
    var r2: Reader := r1.(state := ChunkTrailer, chunkReceive := n, body := r.body + c.data, buffer := CRLF + rest);
    assert Turn(r1) == (r2, Again) by {
      assert tail[..n] == c.data && tail[n..] == CRLF + rest;
    }
    r' := r2.(state := ChunkLen, buffer := rest);
    assert Turn(r2) == (r', Again) by {
      assert (CRLF + rest)[2..] == rest;
    }
    DrainAgain(r);
    DrainAgain(r1);
    DrainAgain(r2);
  }

  lemma ChunkSplit(c: Chunk, rest: ByteString)
    ensures ChunkBytes(c) + rest == c.line + (CRLF + (c.data + (CRLF + rest)))
  {
    Append(c.line + CRLF + c.data, CRLF, rest);
    Append(c.line + CRLF, c.data, CRLF + rest);
    Append(c.line, CRLF, c.data + (CRLF + rest));
  }

  lemma DrainAgain(r: Reader)
    requires Turn(r).1.Again?
    ensures Drain(r) == Drain(Turn(r).0)
  {
  }

  lemma {:induction false} DrainStream(r: Reader, chunks: seq<Chunk>, last: ByteString)
    requires r.state.ChunkLen? && r.buffer == Stream(chunks, last)
    requires ValidLast(last) && forall c :: c in chunks ==> ValidChunk(c)
    ensures var (r', open) := Drain(r);
      !open && r'.state.Done? && r'.body == r.body + Payload(chunks) && r'.buffer == CRLF && r'.keepalive == r.keepalive
    decreases |chunks|
  {
    if chunks == [] {
      Append(last, CRLF, CRLF);
      SizeLine(r, last, CRLF);
      var r1: Reader := r.(state := ChunkLast, chunkReceive := 0, chunkSize := 2, buffer := CRLF);
      assert Turn(r) == (r1, Again);
      assert Turn(r1) == (r1.(state := Done), Stop);
      assert r.body + [] == r.body;
    } else {
      var r' := DrainChunk(r, chunks[0], Stream(chunks[1..], last));
      DrainStream(r', chunks[1..], last);
      Append(r.body, chunks[0].data, Payload(chunks[1..]));
    }
  }

  lemma {:induction false} BodyGrows(r: Reader)
    ensures r.body <= Drain(r).0.body
    decreases 3 * |r.buffer| + Rank(r.state)
  {
    if Turn(r).1.Again? {
      TurnProgress(r);
      BodyGrows(Turn(r).0);
    }
  }

  /** A chunked reader that ends by itself with the connection alive has the final line end in front. */
  lemma {:induction false} ClosedAtLineEnd(r: Reader)
    requires !r.state.Content? && !r.state.Done? && !Drain(r).1 && Drain(r).0.keepalive
    ensures StartsWithCrLf(Drain(r).0.buffer)
    decreases 3 * |r.buffer| + Rank(r.state)
  {
    if Turn(r).1.Again? {
      TurnProgress(r);
      ClosedAtLineEnd(Turn(r).0);
    }
  }

  const START: Reader := Reader(ChunkLen, [], 0, 0, 0, true, [])

  /** However the whole stream is cut up, the body is the chunks' data and the reader is done. */
  lemma WholeStream(pieces: seq<ByteString>, chunks: seq<Chunk>, last: ByteString)
    requires ValidLast(last) && forall c :: c in chunks ==> ValidChunk(c)
    requires Concat(pieces) == Stream(chunks, last)
    ensures var (r, open) := FeedAll(START, pieces);
      !open && r.state.Done? && r.keepalive && r.body == Payload(chunks)
  {
    var unread := AnyFragmentation(START, pieces);
    EmptyAppend(Concat(pieces));
    DrainStream(Behind(START, Concat(pieces)), chunks, last);
    EmptyAppend(Payload(chunks));
  }

  /**
   However a proper front of the stream is cut up, the reader is not done, the connection is
   open, and the body so far is a front of the chunks' data.
   */
  lemma PartialStream(pieces: seq<ByteString>, missing: ByteString, chunks: seq<Chunk>, last: ByteString)
    requires ValidLast(last) && forall c :: c in chunks ==> ValidChunk(c)
    requires missing != [] && Concat(pieces) + missing == Stream(chunks, last)
    ensures var (r, open) := FeedAll(START, pieces);
      open && !r.state.Done? && r.body <= Payload(chunks)
  {
    hide Stream, Payload, ValidChunk, ValidLast;
    var (r, open) := FeedAll(START, pieces);
    var unread := AnyFragmentation(START, pieces);
    var front := Behind(START, Concat(pieces));
    EmptyAppend(Concat(pieces));
    var whole := Behind(front, missing);
    assert whole == Behind(START, Stream(chunks, last)) by {
      EmptyAppend(Stream(chunks, last));
    }
    DrainStream(whole, chunks, last);
    EmptyAppend(Payload(chunks));
    FrontOfWhole(front, missing);
    if open {
      OpenNotDone(front);
    }
  }

  lemma OpenNotDone(r: Reader)
    requires Drain(r).1
    ensures !Drain(r).0.state.Done?
  {
    DrainRests(r);
  }

  /** If the whole ends with just the final line end unread, its front has not ended. */
  lemma FrontOfWhole(front: Reader, missing: ByteString)
    requires front.state.ChunkLen? && missing != []
    requires var (w, open) := Drain(Behind(front, missing)); !open && w.keepalive && w.buffer == CRLF
    ensures Drain(front).1 && Drain(front).0.body <= Drain(Behind(front, missing)).0.body
  {
    DrainBehind(front, missing);
    var (r, open) := Drain(front);
    if open {
      BodyGrows(Behind(r, missing));
    } else {
      ClosedAtLineEnd(front);
    }
  }

  // ---------- Bodies of announced length ----------

  /** A reader whose headers announced so many bytes. */
  function Announced(contentLength: nat): Reader {
    Reader(Content, [], 0, 0, contentLength, true, [])
  }

  /** One piece of an unchunked body is added whole, and ends it when the announced number is reached. */
  lemma ContentPiece(r: Reader, piece: ByteString)
    requires r.state.Content? && r.buffer == []
    ensures var (r', open) := Feed(r, piece);
      && r'.body == r.body + piece && r'.buffer == [] && r'.contentLength == r.contentLength && r'.keepalive == r.keepalive
      && (if |r.body| + |piece| < r.contentLength then open && r'.state.Content? else !open && r'.state.Done?)
  {
    EmptyAppend(piece);
  }

  lemma {:induction false} ContentPieces(r: Reader, pieces: seq<ByteString>) returns (k: nat)
    requires r.state.Content? && r.buffer == []
    ensures k <= |pieces|
    ensures var (r', open) := FeedAll(r, pieces);
      && r'.body == r.body + Concat(pieces[..k]) && r'.buffer == [] && r'.keepalive == r.keepalive
      && (if open then r'.state.Content? && k == |pieces| && (k == 0 || |r'.body| < r.contentLength)
          else r'.state.Done? && k > 0 && |r'.body| >= r.contentLength
               && (k == 1 || |r.body + Concat(pieces[..k - 1])| < r.contentLength))
    decreases |pieces|
  {
    k := 0;
    if pieces == [] {
      assert r.body + [] == r.body;
    } else {
      ContentPiece(r, pieces[0]);
      hide Feed;
      var (r', open) := Feed(r, pieces[0]);
      if open {
        var j := ContentPieces(r', pieces[1..]);
        k := j + 1;
        assert pieces[..k][0] == pieces[0] && pieces[..k][1..] == pieces[1..][..j];
        Append(r.body, pieces[0], Concat(pieces[1..][..j]));
        if j >= 1 {
          assert pieces[..k - 1][0] == pieces[0] && pieces[..k - 1][1..] == pieces[1..][..j - 1];
          Append(r.body, pieces[0], Concat(pieces[1..][..j - 1]));
        }
      } else {
        k := 1;
        assert |pieces[..1][1..]| == 0 && pieces[..1][0] == pieces[0];
        assert pieces[0] + [] == pieces[0];
      }
    }
  }

  lemma {:induction false} ConcatFront(pieces: seq<ByteString>, k: nat)
    requires k <= |pieces|
    ensures Concat(pieces) == Concat(pieces[..k]) + Concat(pieces[k..])
  {
    if k == 0 {
      assert pieces[0..] == pieces && pieces[..0] == [];
      EmptyAppend(Concat(pieces));
    } else {
      ConcatFront(pieces[1..], k - 1);
      assert pieces[..k][1..] == pieces[1..][..k - 1] && pieces[1..][k - 1..] == pieces[k..];
      Append(pieces[0], Concat(pieces[1..][..k - 1]), Concat(pieces[k..]));
    }
  }

  /** Exactly the announced bytes, in any pieces, leave the reader done and closed with those bytes. */
  lemma WholeBody(pieces: seq<ByteString>, contentLength: nat)
    requires pieces != [] && |Concat(pieces)| == contentLength
    ensures var (r, open) := FeedAll(Announced(contentLength), pieces);
      !open && r.state.Done? && r.keepalive && r.body == Concat(pieces)
  {
    var k := ContentPieces(Announced(contentLength), pieces);
    ConcatFront(pieces, k);
    EmptyAppend(Concat(pieces[..k]));
    hide FeedAll;
    assert pieces[..|pieces|] == pieces;
    assert |Concat(pieces)| == |Concat(pieces[..k])| + |Concat(pieces[k..])|;
    assert Concat(pieces)[..|Concat(pieces[..k])|] == Concat(pieces[..k]);
  }

  /** Fewer leave it open, waiting, with those that came. */
  lemma PartialBody(pieces: seq<ByteString>, contentLength: nat)
    requires |Concat(pieces)| < contentLength
    ensures var (r, open) := FeedAll(Announced(contentLength), pieces);
      open && r.state.Content? && r.keepalive && r.body == Concat(pieces)
  {
    var k := ContentPieces(Announced(contentLength), pieces);
    ConcatFront(pieces, k);
    EmptyAppend(Concat(pieces[..k]));
    assert pieces[..|pieces|] == pieces;
  }

  /** More leave it done with the bytes of all pieces up to the one that reached the announced number, what is over included. */
  lemma OverfullBody(pieces: seq<ByteString>, contentLength: nat) returns (k: nat)
    requires pieces != [] && |Concat(pieces)| >= contentLength
    ensures 0 < k <= |pieces| && |Concat(pieces[..k])| >= contentLength && (k == 1 || |Concat(pieces[..k - 1])| < contentLength)
    ensures var (r, open) := FeedAll(Announced(contentLength), pieces);
      !open && r.state.Done? && r.body == Concat(pieces[..k])
  {
    k := ContentPieces(Announced(contentLength), pieces);
    ConcatFront(pieces, k);
    EmptyAppend(Concat(pieces[..k]));
    assert pieces[..|pieces|] == pieces;
    if k > 0 {
      EmptyAppend(Concat(pieces[..k - 1]));
    }
  }

  // ---------- Sizes as senders write them ----------

  function HexChar(d: nat): byte
    requires d < 16
  {
    if d < 10 then '0' as int + d else 'a' as int + (d - 10)
  }

  function Hex(n: nat): (s: ByteString)
    ensures s != [] && forall i :: 0 <= i < |s| ==> HexDigit(s[i]).Some?
  {
    if n < 16 then [HexChar(n)] else Hex(n / 16) + [HexChar(n % 16)]
  }

  lemma {:induction false} HexPrefixAppend(s: ByteString, d: byte, acc: nat)
    requires HexDigit(d).Some? && forall i :: 0 <= i < |s| ==> HexDigit(s[i]).Some?
    ensures HexPrefix(s + [d], acc) == 16 * HexPrefix(s, acc) + HexDigit(d).value
  {
    if s != [] {
      assert (s + [d])[1..] == s[1..] + [d];
      HexPrefixAppend(s[1..], d, 16 * acc + HexDigit(s[0]).value);
    } else {
      assert [d][1..] == [];
    }
  }

  lemma {:induction false} HexValue(n: nat)
    ensures HexPrefix(Hex(n), 0) == n
    ensures n >= 1 ==> Hex(n)[0] != '0' as int
  {
    if n >= 16 {
      HexValue(n / 16);
      HexPrefixAppend(Hex(n / 16), HexChar(n % 16), 0);
    } else {
      assert [HexChar(n)][1..] == [];
    }
  }

  /** A size below 2^31 written in hexadecimal makes a valid size line for that much data. */
  lemma HexLine(n: nat)
    requires n < TWO_31
    ensures Stoi16(Hex(n)) == Some(n) && NoCrLf(Hex(n))
  {
    HexValue(n);
    assert n < 16 ==> |Hex(n)| == 1;
    PlainDigits(Hex(n));
  }

  lemma PlainDigits(s: ByteString)
    requires s != [] && (forall i :: 0 <= i < |s| ==> HexDigit(s[i]).Some?) && (|s| == 1 || s[0] != '0' as int)
    requires HexPrefix(s, 0) < TWO_31
    ensures Stoi16(s) == Some(HexPrefix(s, 0)) && NoCrLf(s)
  {
    hide HexPrefix;
    assert HexDigit(s[0]).Some?;
    assert SkipSpace(s) == s;
    forall i | 0 <= i < |s| ensures s[i] != 13 {
      assert HexDigit(s[i]).Some?;
    }
  }

  // ---------- Size lines in general ----------

  predicate IsHex(b: byte) {
    48 <= b <= 57 || 65 <= b <= 70 || 97 <= b <= 102
  }

  /** The value of a hexadecimal digit, in either case. */
  function HexOf(b: byte): nat
    requires IsHex(b)
  {
    if b <= 57 then b - 48 else if b <= 70 then b - 55 else b - 87
  }

  lemma DigitIs(b: byte)
    ensures HexDigit(b) == if IsHex(b) then Some(HexOf(b)) else None
  {
  }

  /** The number the digits stand for, the last the least significant. */
  function NumberOf(digits: ByteString): nat
    requires forall b :: b in digits ==> IsHex(b)
  {
    if digits == [] then 0 else 16 * NumberOf(digits[..|digits| - 1]) + HexOf(digits[|digits| - 1])
  }

  lemma {:induction false} PrefixIs(digits: ByteString, rest: ByteString)
    requires (forall b :: b in digits ==> IsHex(b)) && (rest == [] || !IsHex(rest[0]))
    ensures HexPrefix(digits + rest, 0) == NumberOf(digits)
  {
    hide HexDigit;
    DigitsThenRest(digits, rest, 0);
    DigitsAre(digits);
  }

  lemma {:induction false} DigitsThenRest(digits: ByteString, rest: ByteString, acc: nat)
    requires (forall b :: b in digits ==> IsHex(b)) && (rest == [] || !IsHex(rest[0]))
    ensures HexPrefix(digits + rest, acc) == HexPrefix(digits, acc)
  {
    hide HexDigit;
    if digits == [] {
      EmptyAppend(rest);
      if rest != [] {
        DigitIs(rest[0]);
      }
    } else {
      DigitIs(digits[0]);
      assert (digits + rest)[1..] == digits[1..] + rest;
      DigitsThenRest(digits[1..], rest, 16 * acc + HexDigit(digits[0]).value);
    }
  }

  lemma {:induction false} DigitsAre(digits: ByteString)
    requires forall b :: b in digits ==> IsHex(b)
    ensures HexPrefix(digits, 0) == NumberOf(digits)
  {
    if digits != [] {
      var front, last := digits[..|digits| - 1], digits[|digits| - 1];
      assert digits == front + [last] && last in digits;
      DigitsAre(front);
      hide HexPrefix, HexDigit;
      forall i | 0 <= i < |digits| ensures HexDigit(digits[i]) == Some(HexOf(digits[i])) {
        DigitIs(digits[i]);
      }
      HexPrefixAppend(front, last, 0);
    }
  }

  /** What a size line is made of: white space, a sign, a prefix, digits and anything else. */
  datatype Numeral = Numeral(space: ByteString, sign: ByteString, prefix: ByteString, digits: ByteString, rest: ByteString)

  /** A `0x` with a digit behind it is a prefix; without one the zero is the number. */
  predicate ValidNumeral(n: Numeral) {
    && (forall b :: b in n.space ==> b in {9, 10, 11, 12, 13, 32})
    && (n.sign == [] || n.sign == ['+' as int] || n.sign == ['-' as int])
    && (n.prefix == [] || n.prefix == ['0' as int, 'x' as int] || n.prefix == ['0' as int, 'X' as int])
    && n.digits != [] && (forall b :: b in n.digits ==> IsHex(b))
    && (n.rest == [] || !IsHex(n.rest[0]))
    && (n.prefix == [] && n.digits == ['0' as int] && |n.rest| >= 2 && IsHex(n.rest[1]) ==> n.rest[0] != 'x' as int && n.rest[0] != 'X' as int)
  }

  function NumeralBytes(n: Numeral): ByteString {
    n.space + (n.sign + (n.prefix + (n.digits + n.rest)))
  }

  lemma {:induction false} SpaceSkipped(space: ByteString, rest: ByteString)
    requires (forall b :: b in space ==> b in {9, 10, 11, 12, 13, 32}) && (rest == [] || rest[0] !in {9, 10, 11, 12, 13, 32})
    ensures SkipSpace(space + rest) == rest
  {
    if space == [] {
      EmptyAppend(rest);
    } else {
      assert (space + rest)[1..] == space[1..] + rest;
      assert space[0] in space && forall b :: b in space[1..] ==> b in space;
      SpaceSkipped(space[1..], rest);
    }
  }

  /** A size line is read as its number, unless that is too large for an int. */
  lemma NumeralRead(n: Numeral)
    requires ValidNumeral(n)
    ensures var v := if n.sign == ['-' as int] then 0 - NumberOf(n.digits) else NumberOf(n.digits);
      Stoi16(NumeralBytes(n)) == if -0x8000_0000 <= v < 0x8000_0000 then Some(v) else None
  {
    hide SkipSpace, HexPrefix, HexDigit, NumberOf, IsHex, ValidNumeral, NumeralBytes, Stoi16;
    var body := n.digits + n.rest;
    var u := n.prefix + body;
    NumeralParts(n);
    SignTaken(n.sign, u);
    PrefixTaken(n);
    PrefixIs(n.digits, n.rest);
    DigitIs(body[0]);
    StoiSteps(NumeralBytes(n), n.sign + u, u, body, n.sign == ['-' as int]);
  }

  lemma StoiSteps(s: ByteString, t: ByteString, u: ByteString, v: ByteString, negative: bool)
    requires t == SkipSpace(s) && t != [] && (t[0] == '-' as int <==> negative)
    requires u == if t[0] == '-' as int || t[0] == '+' as int then t[1..] else t
    requires v == if |u| >= 3 && u[0] == '0' as int && (u[1] == 'x' as int || u[1] == 'X' as int) && HexDigit(u[2]).Some? then u[2..] else u
    requires v != [] && HexDigit(v[0]).Some?
    ensures var n := if negative then 0 - HexPrefix(v, 0) else HexPrefix(v, 0);
      Stoi16(s) == if -0x8000_0000 <= n < 0x8000_0000 then Some(n) else None
  {
    hide SkipSpace, HexPrefix, HexDigit;
  }

  lemma NumeralParts(n: Numeral)
    requires ValidNumeral(n)
    ensures var body := n.digits + n.rest;
      var u := n.prefix + body;
      && SkipSpace(NumeralBytes(n)) == n.sign + u && body != [] && IsHex(body[0])
      && (forall b :: b in n.digits ==> IsHex(b)) && (n.rest == [] || !IsHex(n.rest[0]))
      && u != [] && u[0] != '+' as int && u[0] != '-' as int
      && (n.sign == [] || n.sign == ['+' as int] || n.sign == ['-' as int])
  {
    var body := n.digits + n.rest;
    var u := n.prefix + body;
    assert n.digits[0] in n.digits && body[0] == n.digits[0];
    assert u[0] == if n.prefix == [] then body[0] else '0' as int;
    assert n.sign != [] ==> (n.sign + u)[0] == n.sign[0];
    EmptyAppend(u);
    SpaceSkipped(n.space, n.sign + u);
  }

  lemma SignTaken(sign: ByteString, u: ByteString)
    requires u != [] && u[0] != '+' as int && u[0] != '-' as int
    requires sign == [] || sign == ['+' as int] || sign == ['-' as int]
    ensures var t := sign + u;
      && t != [] && (t[0] == '-' as int <==> sign == ['-' as int])
      && (if t[0] == '-' as int || t[0] == '+' as int then t[1..] else t) == u
  {
  }

  lemma PrefixTaken(n: Numeral)
    requires ValidNumeral(n)
    ensures var body := n.digits + n.rest;
      var u := n.prefix + body;
      (if |u| >= 3 && u[0] == '0' as int && (u[1] == 'x' as int || u[1] == 'X' as int) && HexDigit(u[2]).Some? then u[2..] else u) == body
  {
    hide HexDigit;
    var body := n.digits + n.rest;
    var u := n.prefix + body;
    if |u| >= 3 {
      DigitIs(u[2]);
    }
    if n.prefix == [] {
      NoPrefix(n);
      EmptyAppend(body);
    } else {
      assert n.digits[0] in n.digits && u[2] == n.digits[0] && u[2..] == body;
    }
  }

  /** Digits without a prefix do not look as if they had one. */
  lemma NoPrefix(n: Numeral)
    requires ValidNumeral(n) && n.prefix == []
    ensures var u := n.prefix + (n.digits + n.rest);
      !(|u| >= 3 && u[0] == '0' as int && (u[1] == 'x' as int || u[1] == 'X' as int) && IsHex(u[2]))
  {
    var u := n.digits + n.rest;
    EmptyAppend(u);
    if |n.digits| >= 2 {
      assert u[1] == n.digits[1] && n.digits[1] in n.digits;
    } else if n.digits[0] == '0' as int {
      assert n.digits == ['0' as int];
      assert u[1..] == n.rest;
    }
  }

  lemma {:induction false} SpaceBefore(s: ByteString) returns (space: ByteString)
    ensures s == space + SkipSpace(s) && forall b :: b in space ==> b in {9, 10, 11, 12, 13, 32}
  {
    space := [];
    if s != [] && IsSpace(s[0]) {
      var more := SpaceBefore(s[1..]);
      space := [s[0]] + more;
      assert s == [s[0]] + s[1..];
    } else {
      EmptyAppend(s);
    }
  }

  lemma {:induction false} DigitsBefore(v: ByteString) returns (digits: ByteString, rest: ByteString)
    ensures v == digits + rest && (rest == [] || !IsHex(rest[0])) && (forall b :: b in digits ==> IsHex(b))
    ensures v != [] && IsHex(v[0]) ==> digits != []
  {
    digits, rest := [], v;
    if v != [] && IsHex(v[0]) {
      digits, rest := DigitsBefore(v[1..]);
      digits := [v[0]] + digits;
      assert v == [v[0]] + v[1..];
    } else {
      EmptyAppend(v);
    }
  }

  lemma SignSplit(t: ByteString) returns (sign: ByteString, u: ByteString)
    ensures t == sign + u && (sign == [] || sign == ['+' as int] || sign == ['-' as int])
    ensures u == if t != [] && (t[0] == '-' as int || t[0] == '+' as int) then t[1..] else t
  {
    if t != [] && (t[0] == '-' as int || t[0] == '+' as int) {
      sign, u := [t[0]], t[1..];
    } else {
      sign, u := [], t;
      EmptyAppend(t);
    }
  }

  predicate HasPrefix(u: ByteString) {
    |u| >= 3 && u[0] == '0' as int && (u[1] == 'x' as int || u[1] == 'X' as int) && IsHex(u[2])
  }

  lemma PrefixSplit(u: ByteString) returns (prefix: ByteString, v: ByteString)
    ensures u == prefix + v && (prefix == [] || prefix == ['0' as int, 'x' as int] || prefix == ['0' as int, 'X' as int])
    ensures prefix == [] ==> v == u && !HasPrefix(u)
    ensures v == if |u| >= 3 && u[0] == '0' as int && (u[1] == 'x' as int || u[1] == 'X' as int) && HexDigit(u[2]).Some? then u[2..] else u
  {
    hide HexDigit;
    if |u| >= 3 {
      DigitIs(u[2]);
    }
    if HasPrefix(u) {
      prefix, v := [u[0], u[1]], u[2..];
    } else {
      prefix, v := [], u;
      EmptyAppend(u);
    }
  }

  /** What is read as a number is one. */
  lemma NumeralWritten(s: ByteString) returns (n: Numeral)
    requires Stoi16(s).Some?
    ensures ValidNumeral(n) && NumeralBytes(n) == s
  {
    hide SkipSpace, HexPrefix, HexDigit, HasPrefix, IsHex, ValidNumeral;
    var space := SpaceBefore(s);
    var sign, u := SignSplit(SkipSpace(s));
    var prefix, v := PrefixSplit(u);
    DigitIs(v[0]);
    hide Stoi16;
    var digits, rest := DigitsBefore(v);
    n := Numeral(space, sign, prefix, digits, rest);
    PartsAreValid(n);
  }

  lemma PartsAreValid(n: Numeral)
    requires (forall b :: b in n.space ==> b in {9, 10, 11, 12, 13, 32}) && (n.sign == [] || n.sign == ['+' as int] || n.sign == ['-' as int])
    requires n.prefix == [] || n.prefix == ['0' as int, 'x' as int] || n.prefix == ['0' as int, 'X' as int]
    requires n.digits != [] && (forall b :: b in n.digits ==> IsHex(b)) && (n.rest == [] || !IsHex(n.rest[0]))
    requires n.prefix == [] ==> !HasPrefix(n.digits + n.rest)
    ensures ValidNumeral(n)
  {
    if n.prefix == [] && n.digits == ['0' as int] && |n.rest| >= 2 {
      var u := n.digits + n.rest;
      assert u[0] == '0' as int && u[1] == n.rest[0] && u[2] == n.rest[1];
    }
  }

  /** A size line is accepted just when it is a number that fits an int. */
  lemma SizesExactly(s: ByteString)
    ensures Stoi16(s).Some? <==> IsSize(s)
  {
    hide Stoi16, ValidNumeral, NumeralBytes, NumberOf, IsHex;
    if Stoi16(s).Some? {
      var n := NumeralWritten(s);
      NumeralRead(n);
    }
    if n :| ValidNumeral(n) && NumeralBytes(n) == s && SmallEnough(n) {
      NumeralRead(n);
    }
  }

  predicate SmallEnough(n: Numeral)
    requires ValidNumeral(n)
  {
    NumberOf(n.digits) < 0x8000_0000 || (n.sign == ['-' as int] && NumberOf(n.digits) == 0x8000_0000)
  }

  ghost predicate IsSize(s: ByteString) {
    exists n :: ValidNumeral(n) && NumeralBytes(n) == s && SmallEnough(n)
  }

  /** A negative size becomes one near 2^64: all that follows is taken for the chunk, and the reader waits on. */
  lemma NegativeSizeSwallows(r: Reader, line: ByteString, rest: ByteString)
    requires r.state.ChunkLen? && NoCrLf(line) && r.buffer == line + (CRLF + rest) && Stoi16(line).Some?
    requires Stoi16(line).value < 0 && |rest| < 0x1_0000_0000_0000_0000 + Stoi16(line).value
    ensures Drain(r) == (Reader(ChunkContent, r.body + rest, 0x1_0000_0000_0000_0000 + Stoi16(line).value, |rest|, r.contentLength, r.keepalive, []), true)
  {
    hide FindCrLf, Stoi16;
    SizeLine(r, line, rest);
    var size := 0x1_0000_0000_0000_0000 + Stoi16(line).value;
    var chunk: Reader := r.(state := ChunkContent, chunkReceive := 0, chunkSize := size, buffer := rest);
    assert Turn(r) == (chunk, Again) by {
      assert Stoi16(line).value % TWO_64 == size;
    }
    DrainAgain(r);
    hide Turn;
    InChunk(chunk);
  }

  lemma InChunk(r: Reader)
    requires r.state.ChunkContent? && r.chunkReceive == 0 && |r.buffer| < r.chunkSize
    ensures Drain(r) == (r.(body := r.body + r.buffer, chunkReceive := |r.buffer|, buffer := []), true)
  {
    assert r.buffer[..|r.buffer|] == r.buffer && r.buffer[|r.buffer|..] == [];
  }

  /** A size line that is no number closes the connection, which is not to be kept. */
  lemma UnreadableSizeCloses(r: Reader, line: ByteString, rest: ByteString)
    requires r.state.ChunkLen? && NoCrLf(line) && r.buffer == line + (CRLF + rest) && Stoi16(line).None?
    ensures var (r', open) := Drain(r);
      !open && r'.state.ChunkLen? && !r'.keepalive && r'.body == r.body && r'.buffer == rest
  {
    hide FindCrLf, Stoi16;
    SizeLine(r, line, rest);
  }
}
