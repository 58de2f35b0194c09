/**
 Exactly which values come back from the bytes written for them. What an empty array leaves
 unread is taken for more empty arrays, so a value holding one is never read back.
 */
module EtfExact {
  import opened Bytes
  import opened EtfFormat
  import opened EtfRoundTrip
  import opened Sequences

  // ---------- What is left unread ----------

  datatype Unread = Nil | EmptyList

  function BytesOf(t: Unread): ByteString {
    match t
    case Nil => ['j' as int]
    case EmptyList => ['l' as int, 0, 0, 0, 0, 'j' as int]
  }

  function Left(ts: seq<Unread>): ByteString {
    if ts == [] then [] else BytesOf(ts[0]) + Left(ts[1..])
  }

  lemma {:induction false} LeftAppend(a: seq<Unread>, b: seq<Unread>)
    ensures Left(a + b) == Left(a) + Left(b)
  {
    if a == [] {
      assert a + b == b;
    } else {
      LeftAppend(a[1..], b);
      assert (a + b)[1..] == a[1..] + b;
      Append(BytesOf(a[0]), Left(a[1..]), Left(b));
    }
  }

  lemma LeftPair()
    ensures Encode(Arr([])) == Left([Nil, EmptyList])
  {
    ZeroBytes();
    assert EncodeAll([]) == [];
    assert Left([EmptyList]) == BytesOf(EmptyList) + Left([]);
    assert [Nil, EmptyList][1..] == [EmptyList] && [EmptyList][1..] == [];
  }

  /** Whatever is left unread is read as an empty array. */
  lemma ReadsEmpty(lib: Runtime, d: ByteString, pos: nat, t: Unread)
    requires At(d, pos, BytesOf(t))
    ensures Parse(lib, d, pos) == Ok(Arr([]), pos + |BytesOf(t)|)
  {
    if t == Nil {
      assert BytesOf(t) == ['j' as int] + [];
      Tagged(d, pos, 'j' as int, []);
      NilRead(lib, d, pos);
    } else {
      hide Big, FromBig, Pow256, Parse;
      ZeroBytes();
      assert BytesOf(t) == ['l' as int] + (Big(0, 4) + ['j' as int]);
      Tagged(d, pos, 'l' as int, Big(0, 4) + ['j' as int]);
      AtSplit(d, pos + 1, Big(0, 4), ['j' as int]);
      WidthBounds();
      ReadBig(d, pos + 1, 0, 4);
      assert ['j' as int] == ['j' as int] + [];
      Tagged(d, pos + 5, 'j' as int, []);
      ListRead(lib, d, pos, 0);
    }
  }

  ghost predicate LeavesSome(d: ByteString, from: nat, to: nat) {
    exists ts :: ts != [] && At(d, from, Left(ts)) && from + |Left(ts)| == to
  }

  /** The value is not read back: an error, another value, or bytes left unread that read as empty arrays. */
  ghost predicate Lost(lib: Runtime, d: ByteString, pos: nat, j: Json) {
    var r := Parse(lib, d, pos);
    r.Err? || r.value != Decoded(j) || LeavesSome(d, r.next, pos + |Encode(j)|)
  }

  ghost predicate AllLost(lib: Runtime, d: ByteString, pos: nat, es: seq<Json>, end: nat)
    requires pos <= |d|
  {
    var r := ParseAll(lib, d, pos, |es|);
    r.Err? || r.value != DecodedAll(es) || LeavesSome(d, r.next, end)
  }

  // ---------- Arrays ----------

  lemma DecodedEmpty(j: Json)
    ensures Decoded(j) == Arr([]) <==> j == Arr([])
  {
  }

  lemma LeftFirst(ts: seq<Unread>)
    requires ts != []
    ensures Left(ts) == BytesOf(ts[0]) + Left(ts[1..])
  {
  }

  lemma AllFirst(es: seq<Json>)
    requires es != []
    ensures EncodeAll(es) == Encode(es[0]) + EncodeAll(es[1..])
    ensures DecodedAll(es) == [Decoded(es[0])] + DecodedAll(es[1..])
  {
  }

  lemma ParseAllFirst(lib: Runtime, d: ByteString, pos: nat, n: nat)
    requires pos <= |d| && n > 0
    ensures var first, r := Parse(lib, d, pos), ParseAll(lib, d, pos, n);
      if first.Err? then r.Err?
      else
        var rest := ParseAll(lib, d, first.next, n - 1);
        if rest.Err? then r.Err? else r == Ok([first.value] + rest.value, rest.next)
  {
    hide Parse;
  }

  /** Values are lost when the first is, or those after it are. */
  lemma FirstLost(lib: Runtime, d: ByteString, pos: nat, es: seq<Json>, end: nat)
    requires pos <= |d| && es != []
    requires var r := Parse(lib, d, pos); r.Err? || r.value != Decoded(es[0]) || AllLost(lib, d, r.next, es[1..], end)
    ensures AllLost(lib, d, pos, es, end)
  {
    hide Parse, ParseAll, Decoded, DecodedAll, LeavesSome;
    ParseAllFirst(lib, d, pos, |es|);
    AllFirst(es);
    var r := Parse(lib, d, pos);
    if r.Ok? {
      var rest := ParseAll(lib, d, r.next, |es| - 1);
      if rest.Ok? {
        var v := [r.value] + rest.value;
        assert v[0] == r.value && v[1..] == rest.value;
        assert DecodedAll(es)[0] == Decoded(es[0]) && DecodedAll(es)[1..] == DecodedAll(es[1..]);
      }
    }
  }

  /** Reading one more empty array takes one unread piece off the front and leaves its own two behind. */
  lemma LagBytes(d: ByteString, pos: nat, ts: seq<Unread>, es: seq<Json>)
    requires ts != [] && es != [] && es[0] == Arr([]) && At(d, pos, Left(ts) + EncodeAll(es))
    ensures var p, more := pos + |BytesOf(ts[0])|, ts[1..] + [Nil, EmptyList];
      At(d, p, Left(more) + EncodeAll(es[1..])) && p + |Left(more)| + |EncodeAll(es[1..])| == pos + |Left(ts)| + |EncodeAll(es)|
  {
    var first, later, pair, body := BytesOf(ts[0]), Left(ts[1..]), Encode(es[0]), EncodeAll(es[1..]);
    assert Left(ts) == first + later && EncodeAll(es) == pair + body;
    LeftAppend(ts[1..], [Nil, EmptyList]);
    LeftPair();
    hide Left, EncodeAll, Encode, BytesOf;
    Append(first, later, pair + body);
    Append(later, pair, body);
    AtSplit(d, pos, first, later + (pair + body));
  }

  /** With something left unread in front of them, no values are read back from their bytes. */
  lemma {:induction false} LagAll(lib: Runtime, d: ByteString, pos: nat, ts: seq<Unread>, es: seq<Json>)
    requires ts != [] && At(d, pos, Left(ts) + EncodeAll(es))
    ensures pos <= |d| && AllLost(lib, d, pos, es, pos + |Left(ts)| + |EncodeAll(es)|)
    decreases |es|
  {
    hide Parse, Encode, EncodeAll, Decoded, ParseAll, DecodedAll, LeavesSome, BytesOf, Left, AllLost;
    AtSplit(d, pos, Left(ts), EncodeAll(es));
    if es == [] {
      LagNone(lib, d, pos, ts);
    } else {
      LeftFirst(ts);
      AtSplit(d, pos, BytesOf(ts[0]), Left(ts[1..]));
      ReadsEmpty(lib, d, pos, ts[0]);
      DecodedEmpty(es[0]);
      if es[0] == Arr([]) {
        LagBytes(d, pos, ts, es);
        LagAll(lib, d, pos + |BytesOf(ts[0])|, ts[1..] + [Nil, EmptyList], es[1..]);
      }
      FirstLost(lib, d, pos, es, pos + |Left(ts)| + |EncodeAll(es)|);
    }
  }

  lemma LagNone(lib: Runtime, d: ByteString, pos: nat, ts: seq<Unread>)
    requires ts != [] && At(d, pos, Left(ts))
    ensures pos <= |d| && AllLost(lib, d, pos, [], pos + |Left(ts)| + |EncodeAll([])|)
  {
    hide Parse, Left;
    assert LeavesSome(d, pos, pos + |Left(ts)|);
  }

  /** Values of which one does not come back do not come back. */
  lemma {:induction false} BadAll(lib: Runtime, d: ByteString, pos: nat, es: seq<Json>)
    requires NoText(lib) && (forall e :: e in es ==> Builds(e) && Ordered(e)) && (exists e :: e in es && !Plain(e))
    requires At(d, pos, EncodeAll(es))
    ensures pos <= |d| && AllLost(lib, d, pos, es, pos + |EncodeAll(es)|)
    decreases es, 1
  {
    hide Parse, Encode, EncodeAll, Decoded, ParseAll, DecodedAll, LeavesSome, Builds, Ordered, Plain, Left, AllLost, NoText, Lost;
    var e, rest := es[0], es[1..];
    AllFirst(es);
    AtSplit(d, pos, Encode(e), EncodeAll(rest));
    if Plain(e) {
      ParseEncode(lib, d, pos, e);
      assert exists x :: x in rest && !Plain(x);
      BadAll(lib, d, pos + |Encode(e)|, rest);
      FirstLost(lib, d, pos, es, pos + |EncodeAll(es)|);
    } else {
      BadValue(lib, d, pos, e);
      BadFirst(lib, d, pos, es);
    }
  }

  /** What the first element leaves unread is in front of those that follow. */
  lemma BadFirst(lib: Runtime, d: ByteString, pos: nat, es: seq<Json>)
    requires es != [] && At(d, pos, EncodeAll(es)) && Lost(lib, d, pos, es[0])
    ensures pos <= |d| && AllLost(lib, d, pos, es, pos + |EncodeAll(es)|)
  {
    hide Parse, Encode, EncodeAll, Decoded, ParseAll, DecodedAll, Left, AllLost;
    AllFirst(es);
    var r, rest := Parse(lib, d, pos), EncodeAll(es[1..]);
    AtSplit(d, pos, Encode(es[0]), rest);
    if r.Ok? && r.value == Decoded(es[0]) {
      var ts :| ts != [] && At(d, r.next, Left(ts)) && r.next + |Left(ts)| == pos + |Encode(es[0])|;
      AtSplit(d, r.next, Left(ts), rest);
      LagAll(lib, d, r.next, ts, es[1..]);
    }
    FirstLost(lib, d, pos, es, pos + |EncodeAll(es)|);
  }

  /** A list tag and its count: what becomes of it is what becomes of its values and its end marker. */
  lemma ListReadAny(lib: Runtime, d: ByteString, pos: nat, n: nat)
    requires pos < |d| && d[pos] == 'l' as int && Read(d, pos + 1, 4) == Ok(n, pos + 5)
    ensures var r, list := Parse(lib, d, pos), ParseAll(lib, d, pos + 5, n);
      if list.Err? || list.next >= |d| then r.Err?
      else r == Ok(if d[list.next] == 'j' as int then Arr(list.value) else Null, list.next + 1)
  {
    hide FromBig, Pow256, ParseAll;
    var list := ParseAll(lib, d, pos + 5, n);
    if list.Ok? && list.next < |d| {
      ReadByte(d, list.next);
    }
  }

  lemma {:induction false} BadArray(lib: Runtime, d: ByteString, pos: nat, es: seq<Json>)
    requires NoText(lib) && (forall e :: e in es ==> Builds(e) && Ordered(e)) && (exists e :: e in es && !Plain(e))
    requires |es| < TWO_32 - 1 && At(d, pos, Encode(Arr(es)))
    ensures Lost(lib, d, pos, Arr(es))
    decreases es, 2
  {
    hide Parse, Encode, ParseAll, DecodedAll, EncodeAll, Left, Builds, Ordered, Plain, Decoded, LeavesSome, NoText;
    ArrayBytes(d, pos, es);
    BadAll(lib, d, pos + 5, es);
    ListReadAny(lib, d, pos, |es|);
    DecodedArray(es);
    var list := ParseAll(lib, d, pos + 5, |es|);
    if list.Ok? && list.value == DecodedAll(es) {
      EndMarker(d, list.next, pos + 5 + |EncodeAll(es)|);
    }
  }

  lemma DecodedArray(es: seq<Json>)
    ensures Decoded(Arr(es)) == Arr(DecodedAll(es))
  {
  }

  lemma ArrayBytes(d: ByteString, pos: nat, es: seq<Json>)
    requires es != [] && |es| < TWO_32 - 1 && At(d, pos, Encode(Arr(es)))
    ensures pos < |d| && d[pos] == 'l' as int && Read(d, pos + 1, 4) == Ok(|es|, pos + 5)
    ensures At(d, pos + 5, EncodeAll(es)) && |Encode(Arr(es))| == 6 + |EncodeAll(es)|
    ensures At(d, pos + 5 + |EncodeAll(es)|, ['j' as int])
  {
    hide FromBig, Pow256, Big, EncodeAll;
    var head, body := Big(|es|, 4), EncodeAll(es);
    assert [] + ['l' as int] == ['l' as int];
    Append(['l' as int], head, body);
    Append(['l' as int], head + body, ['j' as int]);
    Append(head, body, ['j' as int]);
    Tagged(d, pos, 'l' as int, head + (body + ['j' as int]));
    AtSplit(d, pos + 1, head, body + ['j' as int]);
    WidthBounds();
    ReadBig(d, pos + 1, |es|, 4);
    AtSplit(d, pos + 5, body, ['j' as int]);
  }

  /** An unread piece where the end marker should be: either not that, or one piece more is left. */
  lemma EndMarker(d: ByteString, from: nat, to: nat)
    requires LeavesSome(d, from, to) && At(d, to, ['j' as int])
    ensures from < |d| && (d[from] == 'j' as int ==> LeavesSome(d, from + 1, to + 1))
  {
    hide Left, BytesOf;
    var ts :| ts != [] && At(d, from, Left(ts)) && from + |Left(ts)| == to;
    LeftFirst(ts);
    AtSplit(d, from, BytesOf(ts[0]), Left(ts[1..]));
    FirstByte(d, from, ts[0]);
    if d[from] == 'j' as int {
      LeftAppend(ts[1..], [Nil]);
      NilLeft();
      AtSplit(d, from + 1, Left(ts[1..]), ['j' as int]);
      var more := ts[1..] + [Nil];
      assert more[|more| - 1] == Nil;
      assert from + 1 + |Left(more)| == to + 1;
      assert Left(more) == Left(ts[1..]) + ['j' as int];
      assert At(d, from + 1, Left(more));
    }
  }

  lemma FirstByte(d: ByteString, from: nat, t: Unread)
    requires At(d, from, BytesOf(t))
    ensures from < |d| && (d[from] == 'j' as int ==> t == Nil && |BytesOf(t)| == 1)
  {
    assert d[from..from + |BytesOf(t)|][0] == BytesOf(t)[0];
  }

  lemma NilLeft()
    ensures Left([Nil]) == ['j' as int]
  {
    assert [Nil][1..] == [] && ['j' as int] + [] == ['j' as int];
  }

  lemma BadEmpty(lib: Runtime, d: ByteString, pos: nat)
    requires At(d, pos, Encode(Arr([])))
    ensures Lost(lib, d, pos, Arr([]))
  {
    LeftPair();
    assert Left([Nil, EmptyList]) == BytesOf(Nil) + Left([EmptyList]) by { assert [Nil, EmptyList][1..] == [EmptyList]; }
    hide Left, Parse, Encode;
    AtSplit(d, pos, BytesOf(Nil), Left([EmptyList]));
    ReadsEmpty(lib, d, pos, Nil);
    DecodedEmpty(Arr([]));
    assert LeavesSome(d, pos + 1, pos + |Encode(Arr([]))|);
  }

  // ---------- Texts ----------

  /** The C library never makes text of a number. */
  ghost predicate NoText(lib: Runtime) {
    forall t :: !lib.scanFloat(t).Str?
  }

  function Ten(k: nat): nat {
    if k == 0 then 1 else 10 * Ten(k - 1)
  }

  lemma {:induction false} DecimalShort(n: nat, k: nat)
    requires k > 0 && n < Ten(k)
    ensures |Decimal(n)| <= k
  {
    if n >= 10 {
      DecimalShort(n / 10, k - 1);
    }
  }

  lemma TenBounds()
    ensures Ten(20) > TWO_64
  {
    assert Ten(4) == 10000;
    assert Ten(6) == 1000000;
    assert Ten(8) == 100000000;
    assert Ten(10) == 10000000000;
    assert Ten(12) == 1000000000000;
    assert Ten(14) == 100000000000000;
    assert Ten(16) == 10000000000000000;
    assert Ten(18) == 1000000000000000000;
  }

  lemma NumberShort(n: int)
    requires -TWO_64 <= n < TWO_64
    ensures |Decimal(n)| < TWO_32
  {
    TenBounds();
    if n >= 0 {
      DecimalShort(n, 20);
    } else {
      DecimalShort(-n, 20);
    }
  }

  lemma BigTextShort(d: ByteString, pos: nat, width: nat)
    ensures var r := ReadBigInteger(d, pos, width); r.Ok? ==> r.value.Str? && |r.value.s| < TWO_32
  {
    var r := ReadBigInteger(d, pos, width);
    if r.Ok? {
      hide FromBig, FromLittle, Decimal;
      WidthBounds();
      var digits, p := Read(d, pos, width).value, Read(d, pos, width).next;
      var sign, q := Read(d, p, 1).value, p + 1;
      Pow256Monotone(digits, 8);
      hide Pow256;
      BigNumberShort(sign, digits, FromLittle(d[q..q + digits]));
    }
  }

  lemma BigNumberShort(sign: byte, digits: nat, value: word64)
    ensures |BigIntegerText(sign, digits, value)| < TWO_32
  {
    hide Decimal;
    NumberShort(value % TWO_32);
    NumberShort(-ToInt32(value));
    NumberShort(value);
    NumberShort(ToInt64(-ToInt64(value)));
  }

  lemma TextShort(d: ByteString, pos: nat, len: nat)
    requires len < TWO_32
    ensures var r := ReadText(d, pos, len); r.Ok? && (r.value.Str? ==> |r.value.s| < TWO_32)
    ensures AtomValue(ReadText(d, pos, len).value).Str? ==> |AtomValue(ReadText(d, pos, len).value).s| < TWO_32
  {
    hide Ascii;
  }

  lemma ScalarBound(lib: Runtime, d: ByteString, pos: nat, tag: byte)
    requires NoText(lib) && pos <= |d|
    ensures var r := ParseScalar(lib, d, pos, tag); r.Ok? && r.value.Str? ==> |r.value.s| < TWO_32
  {
    hide Read, ReadText, ReadBigInteger, AtomValue, Pow256;
    WidthBounds();
    if tag == 'n' as int || tag == 'o' as int {
      BigTextShort(d, pos, if tag == 'n' as int then 1 else 4);
    } else if tag == 'd' as int || tag == 's' as int || tag == 'm' as int {
      var len := Read(d, pos, if tag == 'd' as int then 2 else if tag == 's' as int then 1 else 4);
      if len.Ok? {
        TextShort(d, len.next, len.value);
      }
    }
  }

  /** No text read is as long as the lengths that are not written whole. */
  lemma TextBound(lib: Runtime, d: ByteString, pos: nat)
    requires NoText(lib)
    ensures var r := Parse(lib, d, pos); r.Ok? && r.value.Str? ==> |r.value.s| < TWO_32
  {
    hide ParseScalar, ParseAll, ParseMembers, FromBig, Pow256, NoText;
    if pos < |d| {
      ScalarBound(lib, d, pos + 1, d[pos]);
    }
  }

  lemma KeyShort(lib: Runtime, d: ByteString, pos: nat)
    requires NoText(lib)
    ensures var key := Parse(lib, d, pos);
      key.Ok? && KeyText(lib, key.value).Ok? ==> |KeyText(lib, key.value).value| < TWO_32
  {
    hide Parse, Decimal, NoText;
    TextBound(lib, d, pos);
    var key := Parse(lib, d, pos);
    if key.Ok? {
      match key.value
      case Int(n) => NumberShort(n % TWO_64);
      case Float(bits) => NumberShort(lib.floatToUnsigned(bits));
      case _ =>
    }
  }

  // ---------- Maps ----------

  lemma {:induction false} EmplaceIn(ms: seq<Member>, key: ByteString, value: Json)
    ensures forall m :: m in ms ==> m in Emplace(ms, key, value)
    ensures forall m :: m in Emplace(ms, key, value) ==> m in ms || m == Member(key, value)
  {
    hide KeyLess;
    if ms != [] {
      EmplaceIn(ms[1..], key, value);
      assert ms == [ms[0]] + ms[1..];
    }
  }

  lemma MembersNext(lib: Runtime, d: ByteString, pos: nat, n: nat, acc: seq<Member>)
    requires pos <= |d| && n > 0
    ensures var r, key := ParseMembers(lib, d, pos, n, acc), Parse(lib, d, pos);
      if key.Err? || KeyText(lib, key.value).Err? then r.Err?
      else
        var value := Parse(lib, d, key.next);
        if value.Err? then r.Err?
        else r == ParseMembers(lib, d, value.next, n - 1, Emplace(acc, KeyText(lib, key.value).value, value.value))
  {
    hide Parse, Emplace, KeyText;
  }

  predicate ShortKeys(ms: seq<Member>) {
    forall m :: m in ms ==> |m.key| < TWO_32
  }

  /** Reading members keeps those there are, and adds none with a long key. */
  lemma {:induction false} MembersKeep(lib: Runtime, d: ByteString, pos: nat, n: nat, acc: seq<Member>)
    requires NoText(lib) && pos <= |d|
    ensures var r := ParseMembers(lib, d, pos, n, acc);
      r.Ok? ==> (forall m :: m in acc ==> m in r.value) && (ShortKeys(acc) ==> ShortKeys(r.value))
    decreases n
  {
    hide Parse, Emplace, KeyText, NoText;
    if n > 0 {
      MembersNext(lib, d, pos, n, acc);
      var key := Parse(lib, d, pos);
      if key.Ok? && KeyText(lib, key.value).Ok? {
        var text, value := KeyText(lib, key.value).value, Parse(lib, d, key.next);
        KeyShort(lib, d, pos);
        if value.Ok? {
          EmplaceIn(acc, text, value.value);
          MembersKeep(lib, d, value.next, n - 1, Emplace(acc, text, value.value));
        }
      }
    }
  }

  ghost predicate MembersLost(lib: Runtime, d: ByteString, pos: nat, ms: seq<Member>, acc: seq<Member>, end: nat)
    requires pos <= |d|
  {
    var r := ParseMembers(lib, d, pos, |ms|, acc);
    r.Err? || r.value != acc + DecodedMembers(ms) || LeavesSome(d, r.next, end)
  }

  lemma MembersFirst(ms: seq<Member>)
    requires ms != []
    ensures EncodeMembers(ms) == EncodeString(ms[0].key) + (Encode(ms[0].value) + EncodeMembers(ms[1..]))
    ensures DecodedMembers(ms) == [Member(ms[0].key, Decoded(ms[0].value))] + DecodedMembers(ms[1..])
  {
    hide Encode, EncodeString;
    Append(EncodeString(ms[0].key), Encode(ms[0].value), EncodeMembers(ms[1..]));
  }

  /** A key too long is not among those read. */
  lemma LongKeyLost(lib: Runtime, d: ByteString, pos: nat, ms: seq<Member>, acc: seq<Member>, end: nat)
    requires NoText(lib) && pos <= |d| && ms != [] && |ms[0].key| >= TWO_32 && ShortKeys(acc)
    ensures MembersLost(lib, d, pos, ms, acc, end)
  {
    hide Decoded, ParseMembers, NoText, LeavesSome;
    MembersKeep(lib, d, pos, |ms|, acc);
    MembersFirst(ms);
    hide DecodedMembers;
    var whole := acc + DecodedMembers(ms);
    assert whole[|acc|] == Member(ms[0].key, Decoded(ms[0].value));
    assert whole[|acc|] in whole;
  }

  lemma {:induction false} KeyNotLess(k: ByteString)
    ensures !KeyLess(k, k)
  {
    if k != [] {
      KeyNotLess(k[1..]);
    }
  }

  /** A wrong value stays, so the map is not the one written. */
  lemma WrongValueLost(lib: Runtime, d: ByteString, pos: nat, ms: seq<Member>, acc: seq<Member>, wrong: Json, end: nat)
    requires NoText(lib) && pos <= |d| && ms != [] && KeysAscend(acc + ms) && wrong != Decoded(ms[0].value)
    ensures var r := ParseMembers(lib, d, pos, |ms| - 1, acc + [Member(ms[0].key, wrong)]);
      r.Ok? ==> r.value != acc + DecodedMembers(ms)
  {
    hide Decoded, ParseMembers, NoText, KeyLess;
    var m := Member(ms[0].key, wrong);
    MembersKeep(lib, d, pos, |ms| - 1, acc + [m]);
    MembersFirst(ms);
    DecodedMembersAt(ms);
    hide DecodedMembers;
    var whole, all := acc + DecodedMembers(ms), acc + ms;
    KeyNotLess(m.key);
    forall i | 0 <= i < |whole| ensures whole[i] != m {
      assert whole[i].key == all[i].key && all[|acc|].key == m.key;
      assert i < |acc| ==> KeyLess(all[i].key, all[|acc|].key);
      assert i > |acc| ==> KeyLess(all[|acc|].key, all[i].key);
    }
    assert m in acc + [m];
  }

  /** A first member whose value is lost: an error, a wrong value, or an unread piece where the next key should be. */
  lemma BadMember(lib: Runtime, d: ByteString, pos: nat, q: nat, ms: seq<Member>, acc: seq<Member>)
    requires NoText(lib) && ms != [] && KeysAscend(acc + ms) && At(d, q, Encode(ms[0].value) + EncodeMembers(ms[1..]))
    requires pos <= |d| && Parse(lib, d, pos) == Ok(Str(ms[0].key), q) && Lost(lib, d, q, ms[0].value)
    ensures MembersLost(lib, d, pos, ms, acc, q + |Encode(ms[0].value)| + |EncodeMembers(ms[1..])|)
  {
    hide Parse, Emplace, KeyLess, Encode, EncodeMembers, Decoded, DecodedMembers, ParseMembers, NoText, LeavesSome, KeysAscend;
    var r, key := Parse(lib, d, q), ms[0].key;
    var end := q + |Encode(ms[0].value)| + |EncodeMembers(ms[1..])|;
    MembersNext(lib, d, pos, |ms|, acc);
    if r.Ok? {
      NextKeyLast(acc, ms, r.value);
      if r.value != Decoded(ms[0].value) {
        WrongValueLost(lib, d, r.next, ms, acc, r.value, end);
      } else {
        AtSplit(d, q, Encode(ms[0].value), EncodeMembers(ms[1..]));
        UnreadKey(lib, d, r.next, q + |Encode(ms[0].value)|, ms, acc);
      }
    }
  }

  lemma UnreadKey(lib: Runtime, d: ByteString, pos: nat, end: nat, ms: seq<Member>, acc: seq<Member>)
    requires pos <= |d| && ms != [] && LeavesSome(d, pos, end)
    ensures var r := ParseMembers(lib, d, pos, |ms| - 1, acc + [Member(ms[0].key, Decoded(ms[0].value))]);
      r.Err? || r.value != acc + DecodedMembers(ms) || LeavesSome(d, r.next, end + |EncodeMembers(ms[1..])|)
  {
    hide Parse, Emplace, Encode, Decoded, LeavesSome;
    var next := acc + [Member(ms[0].key, Decoded(ms[0].value))];
    if |ms| == 1 {
      assert ms[1..] == [];
      assert ParseMembers(lib, d, pos, 0, next) == Ok(next, pos);
    } else {
      hide ParseMembers;
      var t := FirstUnread(d, pos, end);
      ReadsEmpty(lib, d, pos, t);
      MembersNext(lib, d, pos, |ms| - 1, next);
    }
  }

  lemma FirstUnread(d: ByteString, from: nat, to: nat) returns (t: Unread)
    requires LeavesSome(d, from, to)
    ensures At(d, from, BytesOf(t))
  {
    hide BytesOf, Left;
    var ts :| ts != [] && At(d, from, Left(ts)) && from + |Left(ts)| == to;
    t := ts[0];
    LeftFirst(ts);
    AtSplit(d, from, BytesOf(ts[0]), Left(ts[1..]));
  }

  ghost predicate AllGood(ms: seq<Member>) {
    forall m :: m in ms ==> Builds(m.value) && Ordered(m.value)
  }

  ghost predicate SomeBad(ms: seq<Member>) {
    exists m :: m in ms && (|m.key| >= TWO_32 || !Plain(m.value))
  }

  lemma {:induction false} BadMembers(lib: Runtime, d: ByteString, pos: nat, ms: seq<Member>, acc: seq<Member>)
    requires NoText(lib) && AllGood(ms) && SomeBad(ms) && KeysAscend(acc + ms) && ShortKeys(acc)
    requires At(d, pos, EncodeMembers(ms))
    ensures pos <= |d| && MembersLost(lib, d, pos, ms, acc, pos + |EncodeMembers(ms)|)
    decreases ms, 1
  {
    hide Parse, Emplace, KeyLess, Encode, EncodeString, EncodeMembers, Decoded, DecodedMembers, ParseMembers, NoText, LeavesSome, Builds, Ordered, Plain, KeysAscend, Lost, MembersLost;
    var end := pos + |EncodeMembers(ms)|;
    if |ms[0].key| >= TWO_32 {
      LongKeyLost(lib, d, pos, ms, acc, end);
    } else {
      var key, value, tail := ms[0].key, ms[0].value, EncodeMembers(ms[1..]);
      MembersFirst(ms);
      var q := ParseKey(lib, d, pos, key, Encode(value) + tail);
      AtSplit(d, q, Encode(value), tail);
      if Plain(value) {
        ParseEncode(lib, d, q, value);
        NextKeyLast(acc, ms, Decoded(value));
        var acc' := acc + [Member(key, Decoded(value))];
        RestBad(ms);
        BadMembers(lib, d, q + |Encode(value)|, ms[1..], acc');
        FirstGood(lib, d, pos, q, ms, acc, end);
      } else {
        BadValue(lib, d, q, value);
        BadMember(lib, d, pos, q, ms, acc);
      }
    }
  }

  lemma RestBad(ms: seq<Member>)
    requires AllGood(ms) && SomeBad(ms) && ms != [] && |ms[0].key| < TWO_32 && Plain(ms[0].value)
    ensures AllGood(ms[1..]) && SomeBad(ms[1..])
  {
    hide Builds, Ordered, Plain;
    var m :| m in ms && (|m.key| >= TWO_32 || !Plain(m.value));
    assert m in ms[1..];
  }

  lemma FirstGood(lib: Runtime, d: ByteString, pos: nat, q: nat, ms: seq<Member>, acc: seq<Member>, end: nat)
    requires pos <= |d| && ms != [] && KeysAscend(acc + ms)
    requires Parse(lib, d, pos) == Ok(Str(ms[0].key), q) && Parse(lib, d, q).Ok? && Parse(lib, d, q).value == Decoded(ms[0].value)
    requires MembersLost(lib, d, Parse(lib, d, q).next, ms[1..], acc + [Member(ms[0].key, Decoded(ms[0].value))], end)
    ensures MembersLost(lib, d, pos, ms, acc, end)
  {
    hide Parse, Emplace, KeyLess, Decoded, DecodedMembers, ParseMembers, LeavesSome, KeysAscend;
    MembersNext(lib, d, pos, |ms|, acc);
    NextKeyLast(acc, ms, Decoded(ms[0].value));
    MembersFirst(ms);
    Append(acc, [Member(ms[0].key, Decoded(ms[0].value))], DecodedMembers(ms[1..]));
  }

  lemma ObjectBytes(d: ByteString, pos: nat, ms: seq<Member>)
    requires |ms| < TWO_32 - 1 && At(d, pos, Encode(Obj(ms)))
    ensures pos < |d| && d[pos] == 't' as int && Read(d, pos + 1, 4) == Ok(|ms|, pos + 5)
    ensures At(d, pos + 5, EncodeMembers(ms)) && |Encode(Obj(ms))| == 5 + |EncodeMembers(ms)|
  {
    hide FromBig, Pow256, Big, EncodeMembers;
    var head, body := Big(|ms|, 4), EncodeMembers(ms);
    Append(['t' as int], head, body);
    Tagged(d, pos, 't' as int, head + body);
    AtSplit(d, pos + 1, head, body);
    WidthBounds();
    ReadBig(d, pos + 1, |ms|, 4);
  }

  lemma MapReadAny(lib: Runtime, d: ByteString, pos: nat, n: nat)
    requires pos < |d| && d[pos] == 't' as int && Read(d, pos + 1, 4) == Ok(n, pos + 5)
    ensures var r, members := Parse(lib, d, pos), ParseMembers(lib, d, pos + 5, n, []);
      if members.Err? then r.Err? else r == Ok(if n == 0 then Null else Obj(members.value), members.next)
  {
    hide FromBig, Pow256, ParseMembers;
  }

  lemma {:induction false} BadObject(lib: Runtime, d: ByteString, pos: nat, ms: seq<Member>)
    requires NoText(lib) && AllGood(ms) && SomeBad(ms) && KeysAscend(ms)
    requires |ms| < TWO_32 - 1 && At(d, pos, Encode(Obj(ms)))
    ensures Lost(lib, d, pos, Obj(ms))
    decreases ms, 2
  {
    hide Parse, Encode, ParseMembers, DecodedMembers, EncodeMembers, Builds, Ordered, Plain, Decoded, LeavesSome, NoText, KeysAscend, AllGood;
    ObjectBytes(d, pos, ms);
    EmptyAppend(ms);
    EmptyAppend(DecodedMembers(ms));
    BadMembers(lib, d, pos + 5, ms, []);
    MapReadAny(lib, d, pos, |ms|);
    DecodedObject(ms);
  }

  lemma DecodedObject(ms: seq<Member>)
    ensures ms != [] ==> Decoded(Obj(ms)) == Obj(DecodedMembers(ms))
  {
  }

  // ---------- Every value ----------

  /** Only the length modulo 2^32 of a text is written, so a longer text comes back shorter. */
  lemma BadText(lib: Runtime, d: ByteString, pos: nat, s: ByteString)
    requires NoText(lib) && |s| >= TWO_32
    ensures Lost(lib, d, pos, Str(s))
  {
    hide Parse;
    TextBound(lib, d, pos);
  }

  /** A value that is not plain does not come back, whatever surrounds its bytes. */
  lemma {:induction false} BadValue(lib: Runtime, d: ByteString, pos: nat, j: Json)
    requires NoText(lib) && Builds(j) && Ordered(j) && !Plain(j) && At(d, pos, Encode(j))
    ensures Lost(lib, d, pos, j)
    decreases j, 0
  {
    hide Lost, Encode, NoText;
    match j
    case Str(s) => BadText(lib, d, pos, s);
    case Arr(es) =>
      if es == [] {
        BadEmpty(lib, d, pos);
      } else {
        BadArray(lib, d, pos, es);
      }
    case Obj(ms) => BadObject(lib, d, pos, ms);
  }

  /**
   The bytes of a value are read back as that value, and are consumed exactly, just when there is
   no empty array in it, itself included, and no text that is too long.
   */
  lemma ReadsBackExactly(j: Json)
    requires Builds(j) && Ordered(j)
    ensures ReadsBack(j) <==> Plain(j)
  {
    hide Parse, Encode, Builds, Ordered, Plain, Decoded;
    if Plain(j) {
      forall lib: Runtime, d: ByteString, pos: nat | At(d, pos, Encode(j))
        ensures Parse(lib, d, pos) == Ok(Decoded(j), pos + |Encode(j)|)
      {
        ParseEncode(lib, d, pos, j);
      }
    } else {
      var lib, d := Runtime(_ => Null, _ => 0), Encode(j);
      assert At(d, 0, Encode(j));
      BadValue(lib, d, 0, j);
      var r := Parse(lib, d, 0);
      if r.Ok? && LeavesSome(d, r.next, |d|) {
        var t := FirstUnread(d, r.next, |d|);
      }
    }
  }
}
