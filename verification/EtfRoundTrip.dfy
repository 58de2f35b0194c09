/**
 What the decoder makes of the encoder's output: which values come back, with which bytes
 consumed, and what becomes of the values that do not come back unchanged.
 */
module EtfRoundTrip {
  import opened Bytes
  import opened EtfFormat
  import opened Sequences

  /** Objects list their members in key order, as the library's ordered map does. */
  predicate Ordered(j: Json) {
    match j
    case Arr(es) => forall e :: e in es ==> Ordered(e)
    case Obj(ms) => KeysAscend(ms) && forall m :: m in ms ==> Ordered(m.value)
    case _ => true
  }

  /** No empty array anywhere, and no text whose length needs more than 32 bits. */
  predicate Plain(j: Json) {
    match j
    case Str(s) => |s| < TWO_32
    case Arr(es) => es != [] && forall e :: e in es ==> Plain(e)
    case Obj(ms) => forall m :: m in ms ==> |m.key| < TWO_32 && Plain(m.value)
    case _ => true
  }

  /** The value read back from the bytes written for `j`. */
  function Decoded(j: Json): Json
    decreases j, 0
  {
    match j
    case Int(n) =>
      var m := ToInt64(n);
      if m >= TWO_32 - 2 then Str(Decimal(m)) else Int(ToInt32(m))
    case Arr(es) => Arr(DecodedAll(es))
    case Obj(ms) => if ms == [] then Null else Obj(DecodedMembers(ms))
    case _ => j
  }

  function DecodedAll(es: seq<Json>): (r: seq<Json>)
    ensures |r| == |es|
    decreases es, 1
  {
    if es == [] then [] else [Decoded(es[0])] + DecodedAll(es[1..])
  }

  function DecodedMembers(ms: seq<Member>): (r: seq<Member>)
    ensures |r| == |ms|
    decreases ms, 1
  {
    if ms == [] then []
    else [Member(ms[0].key, Decoded(ms[0].value))] + DecodedMembers(ms[1..])
  }

  lemma {:induction false} DecodedAllAt(es: seq<Json>)
    ensures forall i :: 0 <= i < |es| ==> DecodedAll(es)[i] == Decoded(es[i])
  {
    if es != [] {
      DecodedAllAt(es[1..]);
    }
  }

  lemma {:induction false} DecodedMembersAt(ms: seq<Member>)
    ensures forall i :: 0 <= i < |ms| ==> DecodedMembers(ms)[i] == Member(ms[i].key, Decoded(ms[i].value))
  {
    if ms != [] {
      DecodedMembersAt(ms[1..]);
    }
  }

  // ---------- Reading back what was written ----------

  /** A field of `k` bytes holding `n` is read back as `n`. */
  lemma ReadBig(d: ByteString, pos: nat, n: nat, k: nat)
    requires At(d, pos, Big(n, k)) && n < Pow256(k)
    ensures Read(d, pos, k) == Ok(n, pos + k)
  {
    FromBigOfBig(n, k);
    DivisionIsUnique(n, Pow256(k), 0, n);
  }

  /** A one-byte tag followed by `rest`. */
  lemma Tagged(d: ByteString, pos: nat, tag: byte, rest: ByteString)
    requires At(d, pos, [tag] + rest)
    ensures pos < |d| && d[pos] == tag && At(d, pos + 1, rest)
  {
    AtSplit(d, pos, [tag], rest);
    assert d[pos..pos + 1][0] == tag;
  }

  /** Tags of single values go straight to the reader of those. */
  lemma ScalarTag(lib: Runtime, d: ByteString, pos: nat)
    requires pos < |d|
    requires d[pos] !in ['h' as int, 'i' as int, 'l' as int, 't' as int, 'e' as int, 'r' as int, 'f' as int, 'g' as int, 'q' as int]
    ensures Parse(lib, d, pos) == ParseScalar(lib, d, pos + 1, d[pos])
  {
    hide ParseScalar, Read, ParseAll, ParseMembers;
  }

  lemma {:induction false} ParseString(lib: Runtime, d: ByteString, pos: nat, s: ByteString)
    requires |s| < TWO_32 && At(d, pos, EncodeString(s))
    ensures Parse(lib, d, pos) == Ok(Str(s), pos + |EncodeString(s)|)
  {
    hide Parse, FromBig, Pow256, Big, Read;
    Append(['m' as int], Big(|s|, 4), s);
    Tagged(d, pos, 'm' as int, Big(|s|, 4) + s);
    AtSplit(d, pos + 1, Big(|s|, 4), s);
    WidthBounds();
    ReadBig(d, pos + 1, |s|, 4);
    ScalarTag(lib, d, pos);
  }

  lemma {:induction false} ParseAtom(lib: Runtime, d: ByteString, pos: nat, text: string)
    requires text == "nil" || text == "true" || text == "false"
    requires At(d, pos, SmallAtom(text))
    ensures Parse(lib, d, pos) == Ok(AtomValue(Str(Ascii(text))), pos + |SmallAtom(text)|)
  {
    hide Parse, FromBig, Pow256, Ascii, AtomValue, Read;
    assert SmallAtom(text) == ['s' as int] + ([|text|] + Ascii(text));
    Tagged(d, pos, 's' as int, [|text|] + Ascii(text));
    Tagged(d, pos + 1, |text|, Ascii(text));
    ReadByte(d, pos + 1);
    ScalarTag(lib, d, pos);
  }

  lemma AtomsDiffer()
    ensures AtomValue(Str(Ascii("nil"))) == Null
    ensures AtomValue(Str(Ascii("true"))) == Bool(true)
    ensures AtomValue(Str(Ascii("false"))) == Bool(false)
  {
    assert Ascii("true")[0] == 't' as int && Ascii("null")[0] == 'n' as int;
    assert |Ascii("false")| == 5;
    assert Ascii("nil") == Ascii("nil");
  }

  lemma {:induction false} ParseInt(lib: Runtime, d: ByteString, pos: nat, n: int)
    requires At(d, pos, EncodeInt(n))
    ensures Parse(lib, d, pos) == Ok(Decoded(Int(n)), pos + |EncodeInt(n)|)
  {
    hide Parse, FromBig, Pow256, Big, Read, Decimal, BigInteger;
    var m := ToInt64(n);
    if 0 <= m <= 127 {
      assert EncodeInt(n) == ['a' as int] + [m];
      ParseSmall(lib, d, pos, m);
    } else if m >= TWO_32 - 2 {
      ParseBigInteger(lib, d, pos, m);
    } else {
      ParseInt32(lib, d, pos, m);
      WrapTwice(m);
    }
  }

  lemma ParseSmall(lib: Runtime, d: ByteString, pos: nat, m: byte)
    requires At(d, pos, ['a' as int] + [m])
    ensures Parse(lib, d, pos) == Ok(Int(m), pos + 2)
  {
    hide Parse, FromBig, Pow256, Read;
    Tagged(d, pos, 'a' as int, [m]);
    ReadByte(d, pos + 1);
    ScalarTag(lib, d, pos);
  }

  lemma ParseInt32(lib: Runtime, d: ByteString, pos: nat, m: int)
    requires At(d, pos, ['b' as int] + Big(m % TWO_32, 4))
    ensures Parse(lib, d, pos) == Ok(Int(ToInt32(m % TWO_32)), pos + 5)
  {
    hide Parse, FromBig, Pow256, Big, Read, ToInt32;
    Tagged(d, pos, 'b' as int, Big(m % TWO_32, 4));
    WidthBounds();
    ReadBig(d, pos + 1, m % TWO_32, 4);
    ScalarTag(lib, d, pos);
  }

  /** The low 32 bits of a number, and what they are as a signed number. */
  lemma WrapTwice(m: int)
    ensures ToInt32(m % TWO_32) == ToInt32(m)
  {
  }

  lemma {:induction false} ParseBigInteger(lib: Runtime, d: ByteString, pos: nat, m: nat)
    requires TWO_32 - 2 <= m < TWO_63 && At(d, pos, BigInteger(m))
    ensures Parse(lib, d, pos) == Ok(Str(Decimal(m)), pos + |BigInteger(m)|)
  {
    var digits := |Little(m)|;
    BigIntegerShape(m);
    Tagged(d, pos, 'n' as int, [digits] + ([0] + Little(m)));
    Tagged(d, pos + 1, digits, [0] + Little(m));
    Tagged(d, pos + 2, 0, Little(m));
    ReadByte(d, pos + 1);
    ReadByte(d, pos + 2);
    FromLittleOfLittle(m);
    hide Parse, FromBig, Pow256, FromLittle, Decimal;
    ScalarTag(lib, d, pos);
    assert ReadBigInteger(d, pos + 1, 1) == Ok(Str(BigIntegerText(0, digits, m)), pos + 3 + digits);
  }

  lemma BigIntegerShape(m: nat)
    requires TWO_32 - 2 <= m < TWO_63
    ensures |Little(m)| <= 8
    ensures BigInteger(m) == ['n' as int] + ([|Little(m)|] + ([0] + Little(m)))
    ensures BigIntegerText(0, |Little(m)|, m) == Decimal(m)
  {
    var digits := Little(m);
    WidthBounds();
    LittleLength(m, 8);
    LittleLength(m, 4);
    PositiveText(|digits|, m);
    HeaderShape('n' as int, |digits|, 0, digits);
  }

  lemma HeaderShape(a: byte, b: byte, c: byte, rest: ByteString)
    ensures [a, b, c] + rest == [a] + ([b] + ([c] + rest))
  {
  }

  lemma PositiveText(digits: nat, m: nat)
    requires m < TWO_63 && (digits <= 4 ==> m < TWO_32)
    ensures BigIntegerText(0, digits, m) == Decimal(m)
  {
    if digits <= 4 {
      assert m % TWO_32 == m;
    }
  }

  /** A value without empty arrays is read back whole, and exactly its bytes are consumed. */
  lemma {:induction false} ParseEncode(lib: Runtime, d: ByteString, pos: nat, j: Json)
    requires Builds(j) && Ordered(j) && Plain(j) && At(d, pos, Encode(j))
    ensures Parse(lib, d, pos) == Ok(Decoded(j), pos + |Encode(j)|)
    decreases j, 0
  {
    WidthBounds();
    match j
    case Null => ParseAtom(lib, d, pos, "nil"); AtomsDiffer();
    case Bool(b) => ParseAtom(lib, d, pos, if b then "true" else "false"); AtomsDiffer();
    case Int(n) => ParseInt(lib, d, pos, n);
    case Float(bits) =>
      Tagged(d, pos, 'F' as int, Big(bits, 8));
      ReadBig(d, pos + 1, bits, 8);
    case Str(s) => ParseString(lib, d, pos, s);
    case Arr(es) => ParseEncodeArray(lib, d, pos, es);
    case Obj(ms) => ParseEncodeObject(lib, d, pos, ms);
  }

  /** A list tag, a count, that many values and the end marker. */
  lemma ListRead(lib: Runtime, d: ByteString, pos: nat, n: nat)
    requires pos < |d| && d[pos] == 'l' as int && Read(d, pos + 1, 4) == Ok(n, pos + 5)
    requires ParseAll(lib, d, pos + 5, n).Ok?
    requires var t := ParseAll(lib, d, pos + 5, n).next; t < |d| && d[t] == 'j' as int
    ensures var r := ParseAll(lib, d, pos + 5, n); Parse(lib, d, pos) == Ok(Arr(r.value), r.next + 1)
  {
    hide FromBig, Pow256, ParseAll;
    var t := ParseAll(lib, d, pos + 5, n).next;
    ReadByte(d, t);
  }

  lemma MapRead(lib: Runtime, d: ByteString, pos: nat, n: nat)
    requires pos < |d| && d[pos] == 't' as int && Read(d, pos + 1, 4) == Ok(n, pos + 5)
    requires ParseMembers(lib, d, pos + 5, n, []).Ok?
    ensures var r := ParseMembers(lib, d, pos + 5, n, []);
      Parse(lib, d, pos) == Ok(if n == 0 then Null else Obj(r.value), r.next)
  {
    hide FromBig, Pow256, ParseMembers;
  }

  lemma {:induction false} ParseEncodeArray(lib: Runtime, d: ByteString, pos: nat, es: seq<Json>)
    requires es != [] && |es| < TWO_32 - 1
    requires forall e :: e in es ==> Builds(e) && Ordered(e) && Plain(e)
    requires At(d, pos, Encode(Arr(es)))
    ensures Parse(lib, d, pos) == Ok(Arr(DecodedAll(es)), pos + |Encode(Arr(es))|)
    decreases es, 2
  {
    hide FromBig, Pow256, Big, Parse, ParseAll, EncodeAll, Builds, Ordered, Plain;
    var head, body := Big(|es|, 4), EncodeAll(es);
    assert [] + ['l' as int] == ['l' as int];
    Append(['l' as int], head, body);
    Append(['l' as int], head + body, ['j' as int]);
    Append(head, body, ['j' as int]);
    Tagged(d, pos, 'l' as int, head + (body + ['j' as int]));
    AtSplit(d, pos + 1, head, body + ['j' as int]);
    WidthBounds();
    ReadBig(d, pos + 1, |es|, 4);
    AtSplit(d, pos + 5, body, ['j' as int]);
    ParseEncodeAll(lib, d, pos + 5, es);
    var t := pos + 5 + |body|;
    Tagged(d, t, 'j' as int, []) by {
      assert ['j' as int] + [] == ['j' as int];
    }
    ListRead(lib, d, pos, |es|);
  }

  lemma {:induction false} ParseEncodeObject(lib: Runtime, d: ByteString, pos: nat, ms: seq<Member>)
    requires |ms| < TWO_32 - 1 && KeysAscend(ms)
    requires forall m :: m in ms ==> |m.key| < TWO_32 && Builds(m.value) && Ordered(m.value) && Plain(m.value)
    requires At(d, pos, Encode(Obj(ms)))
    ensures Parse(lib, d, pos) == Ok(Decoded(Obj(ms)), pos + |Encode(Obj(ms))|)
    decreases ms, 2
  {
    hide FromBig, Pow256, Big, Parse, ParseMembers, EncodeMembers, Builds, Ordered, Plain, KeyLess;
    var head, body := Big(|ms|, 4), EncodeMembers(ms);
    Append(['t' as int], head, body);
    Tagged(d, pos, 't' as int, head + body);
    AtSplit(d, pos + 1, head, body);
    WidthBounds();
    ReadBig(d, pos + 1, |ms|, 4);
    EmptyAppend(ms);
    ParseEncodeMembers(lib, d, pos + 5, ms, []);
    EmptyAppend(DecodedMembers(ms));
    MapRead(lib, d, pos, |ms|);
  }

  lemma {:induction false} ParseEncodeAll(lib: Runtime, d: ByteString, pos: nat, es: seq<Json>)
    requires forall e :: e in es ==> Builds(e) && Ordered(e) && Plain(e)
    requires At(d, pos, EncodeAll(es))
    ensures ParseAll(lib, d, pos, |es|) == Ok(DecodedAll(es), pos + |EncodeAll(es)|)
    decreases es, 1
  {
    hide FromBig, Pow256, Big, Parse, Encode, Decoded, Builds, Ordered, Plain;
    if es != [] {
      AtSplit(d, pos, Encode(es[0]), EncodeAll(es[1..]));
      ParseEncode(lib, d, pos, es[0]);
      ParseEncodeAll(lib, d, pos + |Encode(es[0])|, es[1..]);
    }
  }

  lemma {:induction false} ParseEncodeMembers(lib: Runtime, d: ByteString, pos: nat, ms: seq<Member>, acc: seq<Member>)
    requires forall m :: m in ms ==> |m.key| < TWO_32 && Builds(m.value) && Ordered(m.value) && Plain(m.value)
    requires KeysAscend(acc + ms)
    requires At(d, pos, EncodeMembers(ms))
    ensures ParseMembers(lib, d, pos, |ms|, acc) == Ok(acc + DecodedMembers(ms), pos + |EncodeMembers(ms)|)
    decreases ms, 1
  {
    if ms == [] {
      assert acc + DecodedMembers(ms) == acc;
    } else {
      var value := Decoded(ms[0].value);
      var p := ParseFirstMember(lib, d, pos, ms, acc);
      NextKeyLast(acc, ms, value);
      var acc' := acc + [Member(ms[0].key, value)];
      ParseEncodeMembers(lib, d, p, ms[1..], acc');
      Append(acc, [Member(ms[0].key, value)], DecodedMembers(ms[1..]));
    }
  }

  lemma {:induction false} ParseFirstMember(lib: Runtime, d: ByteString, pos: nat, ms: seq<Member>, acc: seq<Member>)
    returns (p: nat)
    requires ms != [] && |ms[0].key| < TWO_32 && Builds(ms[0].value) && Ordered(ms[0].value) && Plain(ms[0].value)
    requires At(d, pos, EncodeMembers(ms))
    ensures p <= |d| && p + |EncodeMembers(ms[1..])| == pos + |EncodeMembers(ms)| && At(d, p, EncodeMembers(ms[1..]))
    ensures ParseMembers(lib, d, pos, |ms|, acc)
         == ParseMembers(lib, d, p, |ms| - 1, Emplace(acc, ms[0].key, Decoded(ms[0].value)))
    decreases ms, 0
  {
    hide Parse, Emplace, FromBig, Big, Encode, EncodeString, Decoded, Builds, Ordered, Plain;
    var key, value, tail := ms[0].key, ms[0].value, EncodeMembers(ms[1..]);
    Append(EncodeString(key), Encode(value), tail);
    var q := ParseKey(lib, d, pos, key, Encode(value) + tail);
    AtSplit(d, q, Encode(value), tail);
    ParseEncode(lib, d, q, value);
    p := q + |Encode(value)|;
    ParseMember(lib, d, pos, |ms|, acc, key);
  }

  lemma ParseKey(lib: Runtime, d: ByteString, pos: nat, key: ByteString, rest: ByteString) returns (p: nat)
    requires |key| < TWO_32 && At(d, pos, EncodeString(key) + rest)
    ensures p == pos + |EncodeString(key)| && Parse(lib, d, pos) == Ok(Str(key), p) && At(d, p, rest)
  {
    AtSplit(d, pos, EncodeString(key), rest);
    ParseString(lib, d, pos, key);
    p := pos + |EncodeString(key)|;
  }

  lemma ParseMember(lib: Runtime, d: ByteString, pos: nat, n: nat, acc: seq<Member>, key: ByteString)
    requires n > 0
    requires Parse(lib, d, pos).Ok? && Parse(lib, d, pos).value == Str(key)
    requires Parse(lib, d, Parse(lib, d, pos).next).Ok?
    ensures var Ok(value, q) := Parse(lib, d, Parse(lib, d, pos).next);
      ParseMembers(lib, d, pos, n, acc) == ParseMembers(lib, d, q, n - 1, Emplace(acc, key, value))
  {
  }

  lemma NextKeyLast(acc: seq<Member>, ms: seq<Member>, value: Json)
    requires ms != [] && KeysAscend(acc + ms)
    ensures Emplace(acc, ms[0].key, value) == acc + [Member(ms[0].key, value)]
    ensures KeysAscend(acc + [Member(ms[0].key, value)] + ms[1..])
  {
    var key := ms[0].key;
    forall m | m in acc ensures KeyLess(m.key, key) {
      var i :| 0 <= i < |acc| && acc[i] == m;
      assert (acc + ms)[i] == m && (acc + ms)[|acc|] == ms[0];
    }
    EmplaceLast(acc, key, value);
    var all := acc + [Member(key, value)] + ms[1..];
    forall i, j | 0 <= i < j < |all| ensures KeyLess(all[i].key, all[j].key) {
      assert all[i].key == (acc + ms)[i].key && all[j].key == (acc + ms)[j].key;
    }
  }

  /** A key after every key of the map is added at its end. */
  lemma {:induction false} EmplaceLast(ms: seq<Member>, key: ByteString, value: Json)
    requires forall m :: m in ms ==> KeyLess(m.key, key)
    ensures Emplace(ms, key, value) == ms + [Member(key, value)]
  {
    if ms != [] {
      EmplaceLast(ms[1..], key, value);
      assert ms == [ms[0]] + ms[1..];
    }
  }

  // ---------- What an empty array leaves behind ----------

  /** The bytes of `j` are read back as its decoded value, consuming them exactly, in every context. */
  ghost predicate ReadsBack(j: Json) {
    forall lib: Runtime, d: ByteString, pos: nat {:trigger Parse(lib, d, pos)} ::
      At(d, pos, Encode(j)) ==> Parse(lib, d, pos) == Ok(Decoded(j), pos + |Encode(j)|)
  }

  /** An empty array is written as nil followed by a whole empty list: the list is left unread. */
  lemma EmptyArrayLeavesBytes(lib: Runtime)
    ensures Encode(Arr([])) == ['j' as int, 'l' as int, 0, 0, 0, 0, 'j' as int]
    ensures Parse(lib, Encode(Arr([])), 0) == Ok(Arr([]), 1)
    ensures !ReadsBack(Arr([]))
  {
    hide Parse, FromBig, Pow256;
    var d := Encode(Arr([]));
    ZeroBytes();
    assert EncodeAll([]) == [];
    hide Big;
    assert At(d, 0, d);
    ScalarTag(lib, d, 0);
    assert Decoded(Arr([])) == Arr([]);
    assert Parse(lib, d, 0).next != 0 + |d|;
  }

  lemma ZeroBytes()
    ensures Big(0, 4) == [0, 0, 0, 0]
  {
    assert Big(0, 1) == [0];
    assert Big(0, 2) == [0, 0];
    assert Big(0, 3) == [0, 0, 0];
  }

  /** Inside another array the unread list is taken for the end marker: the outer value becomes null. */
  lemma NestedEmptyArrayIsLost(lib: Runtime)
    ensures Parse(lib, Encode(Arr([Arr([])])), 0).Ok?
    ensures Parse(lib, Encode(Arr([Arr([])])), 0).value == Null
  {
    hide FromBig, Pow256, Big, ReadsBack, ParseScalar;
    EmptyArrayLeavesBytes(lib);
    var inner := Encode(Arr([]));
    var d := Encode(Arr([Arr([])]));
    assert EncodeAll([Arr([])]) == inner by {
      assert EncodeAll([]) == [];
      assert [Arr([])][1..] == [];
    }
    assert d == ['l' as int] + (Big(1, 4) + (inner + ['j' as int]));
    assert At(d, 0, d);
    Tagged(d, 0, 'l' as int, Big(1, 4) + (inner + ['j' as int]));
    AtSplit(d, 1, Big(1, 4), inner + ['j' as int]);
    WidthBounds();
    ReadBig(d, 1, 1, 4);
    assert d[5] == 'j' as int && d[6] == 'l' as int;
    ReadByte(d, 6);
    NilRead(lib, d, 5);
    hide Encode, EncodeAll;
  }

  lemma NilRead(lib: Runtime, d: ByteString, pos: nat)
    requires pos < |d| && d[pos] == 'j' as int
    ensures Parse(lib, d, pos) == Ok(Arr([]), pos + 1)
    ensures ParseAll(lib, d, pos, 1) == Ok([Arr([])], pos + 1)
  {
    ScalarTag(lib, d, pos);
    assert ParseScalar(lib, d, pos + 1, d[pos]) == Ok(Arr([]), pos + 1);
    hide Parse, ParseScalar;
    assert ParseAll(lib, d, pos + 1, 0) == Ok([], pos + 1);
    assert [Arr([])] + [] == [Arr([])];
  }

  /** Numbers of 32 bits and no empty objects. */
  predicate Kept(j: Json) {
    match j
    case Int(n) => -TWO_31 <= n < TWO_31
    case Arr(es) => forall e :: e in es ==> Kept(e)
    case Obj(ms) => ms != [] && forall m :: m in ms ==> Kept(m.value)
    case _ => true
  }

  /** A value read back is the value written exactly when it holds 32-bit numbers and no empty object. */
  lemma {:induction false} DecodedUnchanged(j: Json)
    ensures Decoded(j) == j <==> Kept(j)
    decreases j
  {
    hide DecodedAll, DecodedMembers, Decimal;
    match j
    case Arr(es) =>
      DecodedAllAt(es);
      forall e | e in es ensures Decoded(e) == e <==> Kept(e) { DecodedUnchanged(e); }
      if Decoded(j) == j {
        forall e | e in es ensures Kept(e) {
          var i :| 0 <= i < |es| && es[i] == e;
          assert DecodedAll(es)[i] == es[i];
        }
      } else {
        assert exists i :: 0 <= i < |es| && DecodedAll(es)[i] != es[i];
      }
    case Obj(ms) =>
      DecodedMembersAt(ms);
      forall m | m in ms ensures Decoded(m.value) == m.value <==> Kept(m.value) { DecodedUnchanged(m.value); }
      if Decoded(j) == j {
        forall m | m in ms ensures Kept(m.value) {
          var i :| 0 <= i < |ms| && ms[i] == m;
          assert DecodedMembers(ms)[i] == ms[i];
        }
      } else if ms != [] {
        assert exists i :: 0 <= i < |ms| && DecodedMembers(ms)[i] != ms[i];
      }
    case _ =>
  }

  /** A number of 2^32 - 2 or more comes back as the text of its decimal digits. */
  lemma LargeNumberIsText(n: int)
    requires TWO_32 - 2 <= n < TWO_63
    ensures Decoded(Int(n)).Str? && FromDecimal(Decoded(Int(n)).s) == n
  {
    var m := ToInt64(n);
    assert m == n;
    FromDecimalOfDecimal(m);
    var text := Decimal(m);
    assert Decoded(Int(n)) == Str(text);
  }

  /** A whole message: the version byte, then the value. */
  lemma {:induction false} MessageRoundTrip(lib: Runtime, j: Json, rest: ByteString)
    requires Builds(j) && Ordered(j) && Plain(j)
    ensures ParseMessage(lib, [VERSION] + Encode(j) + rest) == Ok(Decoded(j), 1 + |Encode(j)|)
    ensures Kept(j) ==> ParseMessage(lib, [VERSION] + Encode(j) + rest).value == j
  {
    var d := [VERSION] + Encode(j) + rest;
    assert d[0..1] == [VERSION] && d[1..1 + |Encode(j)|] == Encode(j);
    assert FromBig([]) == 0;
    ParseEncode(lib, d, 1, j);
    DecodedUnchanged(j);
  }

  // ---------- What any input at all can make the decoder build ----------

  /** The number of values in `j`, itself included. */
  function Size(j: Json): (n: nat)
    ensures n > 0
    decreases j, 0
  {
    match j
    case Arr(es) => 1 + SizeAll(es)
    case Obj(ms) => 1 + SizeMembers(ms)
    case _ => 1
  }

  function SizeAll(es: seq<Json>): nat
    decreases es, 1
  {
    if es == [] then 0 else Size(es[0]) + SizeAll(es[1..])
  }

  function SizeMembers(ms: seq<Member>): nat
    decreases ms, 1
  {
    if ms == [] then 0 else Size(ms[0].value) + SizeMembers(ms[1..])
  }

  lemma {:induction false} SizeOfScalars(es: seq<Json>)
    requires forall e :: e in es ==> Size(e) == 1
    ensures SizeAll(es) == |es|
  {
    if es != [] {
      SizeOfScalars(es[1..]);
    }
  }

  lemma {:induction false} EmplaceSize(ms: seq<Member>, key: ByteString, value: Json)
    ensures SizeMembers(Emplace(ms, key, value)) <= SizeMembers(ms) + Size(value)
  {
    if ms == [] {
      assert [Member(key, value)][1..] == [];
    } else if KeyLess(ms[0].key, key) {
      EmplaceSize(ms[1..], key, value);
      var r := [ms[0]] + Emplace(ms[1..], key, value);
      assert r[1..] == Emplace(ms[1..], key, value);
    } else if KeyLess(key, ms[0].key) {
      assert ([Member(key, value)] + ms)[1..] == ms;
    }
  }

  /**
   Whatever the bytes are and whatever counts they claim, a decoded value holds no more
   values than bytes were consumed.
   */
  lemma {:induction false} SizeBound(lib: Runtime, d: ByteString, pos: nat)
    requires forall t :: Size(lib.scanFloat(t)) == 1
    ensures var r := Parse(lib, d, pos); r.Ok? ==> Size(r.value) <= r.next - pos
    decreases |d| - pos, 0
  {
    var r := Parse(lib, d, pos);
    if r.Ok? {
      WidthBounds();
      var tag := d[pos];
      if tag == 'h' as int || tag == 'i' as int || tag == 'l' as int || tag == 't' as int {
        SizeBoundCounted(lib, d, pos);
      } else if tag == 'e' as int {
        SizeBoundReference(lib, d, pos + 1);
      } else if tag == 'r' as int {
        SizeBoundNewReference(lib, d, pos + 1);
      } else if tag == 'f' as int {
        SizeBoundPort(lib, d, pos + 1);
      } else if tag == 'g' as int {
        SizeBoundPid(lib, d, pos + 1);
      } else if tag == 'q' as int {
        SizeBoundExport(lib, d, pos + 1);
      } else if tag == 'k' as int {
        SizeOfScalars(r.value.elems);
      }
    }
  }

  lemma {:induction false} SizeBoundCounted(lib: Runtime, d: ByteString, pos: nat)
    requires pos < |d| && forall t :: Size(lib.scanFloat(t)) == 1
    requires d[pos] == 'h' as int || d[pos] == 'i' as int || d[pos] == 'l' as int || d[pos] == 't' as int
    ensures var r := Parse(lib, d, pos); r.Ok? ==> Size(r.value) <= r.next - pos
    decreases |d| - pos - 1, 2
  {
    var width := if d[pos] == 'h' as int then 1 else 4;
    var len := Read(d, pos + 1, width);
    if len.Ok? {
      if d[pos] == 't' as int {
        SizeBoundMembers(lib, d, pos + 5, len.value, []);
      } else {
        SizeBoundAll(lib, d, pos + 1 + width, len.value);
      }
    }
  }

  lemma {:induction false} SizeBoundAll(lib: Runtime, d: ByteString, pos: nat, n: nat)
    requires forall t :: Size(lib.scanFloat(t)) == 1
    requires pos <= |d|
    ensures var r := ParseAll(lib, d, pos, n); r.Ok? ==> SizeAll(r.value) <= r.next - pos
    decreases |d| - pos, 1, n
  {
    var r := ParseAll(lib, d, pos, n);
    if r.Ok? && n > 0 {
      SizeBound(lib, d, pos);
      SizeBoundAll(lib, d, Parse(lib, d, pos).next, n - 1);
      assert r.value[1..] == ParseAll(lib, d, Parse(lib, d, pos).next, n - 1).value;
    }
  }

  lemma {:induction false} SizeBoundMembers(lib: Runtime, d: ByteString, pos: nat, n: nat, ms: seq<Member>)
    requires forall t :: Size(lib.scanFloat(t)) == 1
    requires pos <= |d|
    ensures var r := ParseMembers(lib, d, pos, n, ms);
      r.Ok? ==> SizeMembers(r.value) <= SizeMembers(ms) + (r.next - pos)
    decreases |d| - pos, 1, n
  {
    hide Parse, Emplace;
    if ParseMembers(lib, d, pos, n, ms).Ok? && n > 0 {
      var Ok(key, p) := Parse(lib, d, pos);
      var text := KeyText(lib, key).value;
      var Ok(value, q) := Parse(lib, d, p);
      SizeBound(lib, d, p);
      EmplaceSize(ms, text, value);
      SizeBoundMembers(lib, d, q, n - 1, Emplace(ms, text, value));
    }
  }

  lemma SizeOfFields(ms: seq<Member>)
    requires 3 <= |ms| <= 4
    ensures SizeMembers(ms) == Size(ms[0].value) + Size(ms[1].value) + Size(ms[2].value)
      + (if |ms| == 4 then Size(ms[3].value) else 0)
  {
    assert ms[1..][1..] == ms[2..] && ms[2..][1..] == ms[3..];
    assert SizeMembers(ms[1..]) == Size(ms[1].value) + SizeMembers(ms[2..]);
    assert SizeMembers(ms[2..]) == Size(ms[2].value) + SizeMembers(ms[3..]);
    if |ms| == 4 {
      assert ms[3..][1..] == [];
      assert SizeMembers(ms[3..]) == Size(ms[3].value);
    } else {
      assert ms[3..] == [];
    }
  }

  lemma {:induction false} SizeBoundReference(lib: Runtime, d: ByteString, pos: nat)
    requires pos <= |d| && forall t :: Size(lib.scanFloat(t)) == 1
    ensures var r := ParseReference(lib, d, pos); r.Ok? ==> Size(r.value) <= r.next - pos + 1
    decreases |d| - pos, 1
  {
    var r := ParseReference(lib, d, pos);
    if r.Ok? {
      var ms := r.value.members;
      SizeOfFields(ms);
      SizeBound(lib, d, pos);
      SizeOfScalars(ms[1].value.elems);
    }
  }

  lemma {:induction false} SizeBoundNewReference(lib: Runtime, d: ByteString, pos: nat)
    requires pos <= |d| && forall t :: Size(lib.scanFloat(t)) == 1
    ensures var r := ParseNewReference(lib, d, pos); r.Ok? ==> Size(r.value) <= r.next - pos + 1
    decreases |d| - pos, 1
  {
    var r := ParseNewReference(lib, d, pos);
    if r.Ok? {
      var ms := r.value.members;
      SizeOfFields(ms);
      SizeBound(lib, d, pos + 2);
      SizeOfScalars(ms[1].value.elems);
    }
  }

  lemma {:induction false} SizeBoundPort(lib: Runtime, d: ByteString, pos: nat)
    requires pos <= |d| && forall t :: Size(lib.scanFloat(t)) == 1
    ensures var r := ParsePort(lib, d, pos); r.Ok? ==> Size(r.value) <= r.next - pos + 1
    decreases |d| - pos, 1
  {
    var r := ParsePort(lib, d, pos);
    if r.Ok? {
      var ms := r.value.members;
      SizeOfFields(ms);
      SizeBound(lib, d, pos);
    }
  }

  lemma {:induction false} SizeBoundPid(lib: Runtime, d: ByteString, pos: nat)
    requires pos <= |d| && forall t :: Size(lib.scanFloat(t)) == 1
    ensures var r := ParsePid(lib, d, pos); r.Ok? ==> Size(r.value) <= r.next - pos + 1
    decreases |d| - pos, 1
  {
    var r := ParsePid(lib, d, pos);
    if r.Ok? {
      var ms := r.value.members;
      SizeOfFields(ms);
      SizeBound(lib, d, pos);
    }
  }

  lemma {:induction false} SizeBoundExport(lib: Runtime, d: ByteString, pos: nat)
    requires pos <= |d| && forall t :: Size(lib.scanFloat(t)) == 1
    ensures var r := ParseExport(lib, d, pos); r.Ok? ==> Size(r.value) <= r.next - pos + 1
    decreases |d| - pos, 1
  {
    var r := ParseExport(lib, d, pos);
    if r.Ok? {
      var ms := r.value.members;
      SizeOfFields(ms);
      var p := Parse(lib, d, pos).next;
      SizeBound(lib, d, pos);
      SizeBound(lib, d, p);
      SizeBound(lib, d, Parse(lib, d, p).next);
    }
  }
}
