/** The encoder over a growable buffer and the decoder over a cursor, as the library runs them. */
module EtfCodec {
  import opened Wrappers
  import opened Bytes
  import opened EtfFormat
  import opened Sequences

  /** The output buffer: `buf` is allocated ahead, `length` bytes of it are in use. */
  class EtfBuffer {
    var buf: array<byte>
    var length: nat

    ghost predicate Valid()
      reads this
    {
      length <= buf.Length
    }

    ghost function Contents(): (s: ByteString)
      requires Valid()
      reads this, buf
    {
      buf[..length]
    }

    constructor (initial: nat)
      ensures Valid() && fresh(buf) && Contents() == [] && buf.Length == initial
    {
      buf := new byte[initial];
      length := 0;
    }

    method Write(bytes: ByteString)
      requires Valid()
      modifies this, buf
      ensures Valid() && Contents() == old(Contents()) + bytes
      ensures buf == old(buf) || fresh(buf)
      ensures buf.Length == if old(length) + |bytes| > old(buf.Length) then (old(length) + |bytes|) * 2 else old(buf.Length)
    {
      if length + |bytes| > buf.Length {
        var grown := new byte[(length + |bytes|) * 2];
        forall i | 0 <= i < length {
          grown[i] := buf[i];
        }
        buf := grown;
      }
      forall i | 0 <= i < |bytes| {
        buf[length + i] := bytes[i];
      }
      length := length + |bytes|;
    }

    method AppendInteger(n: int)
      requires Valid() && -TWO_63 <= n < TWO_32 - 2
      modifies this, buf
      ensures Valid() && (buf == old(buf) || fresh(buf))
      ensures Contents() == old(Contents()) + (['b' as int] + Big(n % TWO_32, 4))
    {
      Write(['b' as int] + Big(n % TWO_32, 4));
    }

    /** Writes a large number: its low bytes are shifted out one by one, then counted. */
    method AppendUnsignedLongLong(n: nat)
      requires Valid() && n < TWO_63
      modifies this, buf
      ensures Valid() && (buf == old(buf) || fresh(buf))
      ensures Contents() == old(Contents()) + BigInteger(n)
    {
      var d, digits := n, [];
      while d > 0
        invariant digits + Little(d) == Little(n)
        decreases d
      {
        ghost var before := d;
        digits := digits + [d % 256];
        d := d / 256;
        assert Little(before) == [before % 256] + Little(d);
      }
      WidthBounds();
      LittleLength(n, 8);
      assert digits + [] == digits;
      Write(['n' as int, |digits|, 0] + digits);
    }

    method AppendBinary(s: ByteString)
      requires Valid()
      modifies this, buf
      ensures Valid() && (buf == old(buf) || fresh(buf))
      ensures Contents() == old(Contents()) + EncodeString(s)
    {
      Write(['m' as int] + Big(|s| % TWO_32, 4));
      Write(s);
      assert old(Contents()) + (['m' as int] + Big(|s| % TWO_32, 4)) + s == old(Contents()) + EncodeString(s);
    }

    method AppendHeader(tag: byte, size: nat)
      requires Valid()
      modifies this, buf
      ensures Valid() && (buf == old(buf) || fresh(buf))
      ensures Contents() == old(Contents()) + ([tag] + Big(size % TWO_32, 4))
    {
      Write([tag] + Big(size % TWO_32, 4));
    }

    /**
     Appends the encoding of `j`; refuses, having written a part of it, when an array or
     object is too large.
     */
    method InnerBuild(j: Json) returns (ok: bool)
      requires Valid()
      modifies this, buf
      ensures Valid() && (buf == old(buf) || fresh(buf))
      ensures ok <==> Builds(j)
      ensures ok ==> Contents() == old(Contents()) + Encode(j)
      decreases j, 0
    {
      ok := true;
      match j {
        case Null => Write(SmallAtom("nil"));
        case Bool(b) => Write(SmallAtom(if b then "true" else "false"));
        case Int(n) =>
          var number := ToInt64(n);
          if 0 <= number <= 127 {
            Write(['a' as int, number]);
          } else if number >= TWO_32 - 2 {
            AppendUnsignedLongLong(number);
          } else {
            AppendInteger(number);
          }
        case Float(bits) => Write(['F' as int] + Big(bits, 8));
        case Str(s) => AppendBinary(s);
        case Arr(es) => ok := BuildArray(es);
        case Obj(ms) => ok := BuildObject(ms);
      }
    }

    method BuildArray(es: seq<Json>) returns (ok: bool)
      requires Valid()
      modifies this, buf
      ensures Valid() && (buf == old(buf) || fresh(buf))
      ensures ok <==> Builds(Arr(es))
      ensures ok ==> Contents() == old(Contents()) + Encode(Arr(es))
      decreases es, 1
    {
      ghost var start := Contents();
      if |es| == 0 {
        Write(['j' as int]);
      } else if |es| > TWO_32 - 2 {
        return false;
      }
      ghost var nil := if es == [] then ['j' as int] else [];
      assert Contents() == start + nil;
      AppendHeader('l' as int, |es|);
      ok := BuildElements(es);
      if ok {
        Write(['j' as int]);
        ArrayShape(start, nil, ['l' as int] + Big(|es| % TWO_32, 4), EncodeAll(es), ['j' as int]);
        Append(nil, ['l' as int], Big(|es| % TWO_32, 4));
      }
    }

    method BuildElements(es: seq<Json>) returns (ok: bool)
      requires Valid()
      modifies this, buf
      ensures Valid() && (buf == old(buf) || fresh(buf))
      ensures ok <==> forall e :: e in es ==> Builds(e)
      ensures ok ==> Contents() == old(Contents()) + EncodeAll(es)
      decreases es, 0
    {
      ghost var start, written: ByteString := Contents(), [];
      assert es[0..] == es;
      for index := 0 to |es|
        invariant Valid() && (buf == old(buf) || fresh(buf))
        invariant forall i :: 0 <= i < index ==> Builds(es[i])
        invariant Contents() == start + written
        invariant written + EncodeAll(es[index..]) == EncodeAll(es)
      {
        ok := InnerBuild(es[index]);
        if !ok { return; }
        assert es[index..][1..] == es[index + 1..];
        Append(written, Encode(es[index]), EncodeAll(es[index + 1..]));
        Append(start, written, Encode(es[index]));
        written := written + Encode(es[index]);
      }
      ok := true;
      assert es[|es|..] == [] && written + [] == written;
    }

    method BuildObject(ms: seq<Member>) returns (ok: bool)
      requires Valid()
      modifies this, buf
      ensures Valid() && (buf == old(buf) || fresh(buf))
      ensures ok <==> Builds(Obj(ms))
      ensures ok ==> Contents() == old(Contents()) + Encode(Obj(ms))
      decreases ms, 1
    {
      if |ms| > TWO_32 - 2 {
        return false;
      }
      ghost var start := Contents();
      AppendHeader('t' as int, |ms|);
      ok := BuildMembers(ms);
      Append(start, ['t' as int] + Big(|ms| % TWO_32, 4), EncodeMembers(ms));
    }

    method BuildMembers(ms: seq<Member>) returns (ok: bool)
      requires Valid()
      modifies this, buf
      ensures Valid() && (buf == old(buf) || fresh(buf))
      ensures ok <==> forall m :: m in ms ==> Builds(m.value)
      ensures ok ==> Contents() == old(Contents()) + EncodeMembers(ms)
      decreases ms, 0
    {
      ghost var start, written: ByteString := Contents(), [];
      assert ms[0..] == ms;
      for index := 0 to |ms|
        invariant Valid() && (buf == old(buf) || fresh(buf))
        invariant forall i :: 0 <= i < index ==> Builds(ms[i].value)
        invariant Contents() == start + written
        invariant written + EncodeMembers(ms[index..]) == EncodeMembers(ms)
      {
        AppendBinary(ms[index].key);
        ok := InnerBuild(ms[index].value);
        if !ok { return; }
        assert ms[index..][1..] == ms[index + 1..];
        ghost var key, value := EncodeString(ms[index].key), Encode(ms[index].value);
        Append(written, key + value, EncodeMembers(ms[index + 1..]));
        Append(start + written, key, value);
        Append(start, written, key + value);
        written := written + (key + value);
      }
      ok := true;
      assert ms[|ms|..] == [] && written + [] == written;
    }
  }

  lemma ArrayShape(start: ByteString, nil: ByteString, head: ByteString, body: ByteString, end: ByteString)
    ensures start + nil + head + body + end == start + (nil + head + body + end)
  {
  }

  /** Encodes a whole message: the version byte and one value, in a buffer of one megabyte. */
  method Build(j: Json) returns (r: Option<ByteString>)
    ensures r == if Builds(j) then Some([VERSION] + Encode(j)) else None
  {
    var pk := new EtfBuffer(1024 * 1024);
    pk.Write([VERSION]);
    var ok := pk.InnerBuild(j);
    if !ok { return None; }
    EmptyAppend([VERSION]);
    return Some(pk.buf[..pk.length]);
  }

  /** What a method that returns `r` and leaves the cursor at `offset` shares with the specification. */
  predicate Agrees<T(==)>(spec: Parsed<T>, r: Result<T, EtfError>, offset: nat) {
    match spec
    case Ok(value, next) => r == Success(value) && offset == next
    case Err(error) => r == Failure(error)
  }

  class EtfParser {
    const lib: Runtime
    var data: ByteString
    var size: nat
    var offset: nat

    ghost predicate Valid()
      reads this
    {
      size == |data| && offset <= size
    }

    constructor (lib: Runtime)
      ensures Valid() && this.lib == lib
    {
      this.lib := lib;
      data, size, offset := [], 0, 0;
    }

    /** Reads the next `k` bytes as a number: the library's 8-, 16-, 32- and 64-bit reads. */
    method ReadBits(k: nat) returns (r: Result<nat, EtfError>)
      requires Valid()
      modifies this`offset
      ensures Valid() && offset >= old(offset)
      ensures Agrees(Read(data, old(offset), k), r, offset)
      ensures r.Success? ==> r.value < Pow256(k)
    {
      if offset + k > size {
        return Failure(PastEnd);
      }
      r := Success(FromBig(data[offset..offset + k]));
      offset := offset + k;
    }

    method ReadString(length: nat) returns (r: Json)
      requires Valid()
      modifies this`offset
      ensures Valid() && offset >= old(offset)
      ensures ReadText(data, old(offset), length) == Ok(r, offset)
    {
      if offset + length > size {
        return Null;
      }
      r := Str(data[offset..offset + length]);
      offset := offset + length;
    }

    method DecodeAtom(width: nat) returns (r: Result<Json, EtfError>)
      requires Valid()
      modifies this`offset
      ensures Valid() && offset >= old(offset)
      ensures Agrees(ReadAtom(data, old(offset), width), r, offset)
    {
      var length :- ReadBits(width);
      var atom := ReadString(length);
      r := Success(AtomValue(atom));
    }

    method DecodeStringAsList() returns (r: Result<Json, EtfError>)
      requires Valid()
      modifies this`offset
      ensures Valid() && offset >= old(offset)
      ensures Agrees(ReadStringList(data, old(offset)), r, offset)
    {
      var length :- ReadBits(2);
      if offset + length > size {
        return Failure(PastEnd);
      }
      var start, elems := offset, [];
      for i := 0 to length
        invariant Valid() && offset == start + i
        invariant elems == Octets(data, start, i)
      {
        ReadByte(data, offset);
        var item := ReadBits(1);
        elems := elems + [Int(item.value)];
      }
      r := Success(Arr(elems));
    }

    method DecodeBigint(digits: nat) returns (r: Result<Json, EtfError>)
      requires Valid()
      modifies this`offset
      ensures Valid() && offset >= old(offset)
      ensures Agrees(BigintBody(data, old(offset), digits), r, offset)
    {
      WidthBounds();
      var sign :- ReadBits(1);
      if digits > 8 {
        return Failure(BigIntTooLarge);
      }
      Pow256Monotone(digits, 8);
      var value :- ReadDigits(digits);
      r := Success(Str(BigIntegerText(sign, digits, value)));
    }

    /** Adds up `digits` bytes, each with a weight 256 times the one before. */
    method ReadDigits(digits: nat) returns (r: Result<nat, EtfError>)
      requires Valid()
      modifies this`offset
      ensures Valid() && offset >= old(offset)
      ensures Agrees(if old(offset) + digits > |data| then Err(PastEnd)
                     else Ok(FromLittle(data[old(offset)..old(offset) + digits]), old(offset) + digits), r, offset)
    {
      var start, value, weight := offset, 0, 1;
      assert FromLittle([]) == 0 && Pow256(0) == 1;
      hide FromBig, FromLittle, Pow256;
      for i := 0 to digits
        invariant Valid() && offset == start + i
        invariant weight == Pow256(i) && value == FromLittle(data[start..offset])
      {
        if offset + 1 <= size {
          NextDigit(data, start, offset);
          ReadByte(data, offset);
        }
        var digit :- ReadBits(1);
        value := value + digit * weight;
        weight := 256 * weight;
      }
      r := Success(value);
    }

    method DecodeFloat() returns (r: Result<Json, EtfError>)
      requires Valid()
      modifies this`offset
      ensures Valid() && offset >= old(offset)
      ensures Agrees(ReadFloatText(lib, data, old(offset)), r, offset)
    {
      var text := ReadString(31);
      r := Success(if text.Str? then lib.scanFloat(text.s) else Null);
    }

    method DecodeArray(length: nat) returns (r: Result<seq<Json>, EtfError>)
      requires Valid()
      modifies this`offset
      ensures Valid() && offset >= old(offset)
      ensures Agrees(ParseAll(lib, data, old(offset), length), r, offset)
      decreases size - offset, 2
    {
      ghost var spec := ParseAll(lib, data, offset, length);
      var elems := [];
      PrefixedNone(spec);
      for i := 0 to length
        invariant Valid() && offset >= old(offset)
        invariant spec == Prefixed(elems, ParseAll(lib, data, offset, length - i))
      {
        var e :- InnerParse();
        PrefixedOnce(elems, e, ParseAll(lib, data, offset, length - i - 1));
        elems := elems + [e];
      }
      assert elems + [] == elems;
      r := Success(elems);
    }

    method DecodeList() returns (r: Result<Json, EtfError>)
      requires Valid() && offset < size && data[offset] == 'l' as int
      modifies this`offset
      ensures Valid() && offset >= old(offset)
      ensures Agrees(Parse(lib, data, old(offset)), r, offset)
      decreases size - offset, 0
    {
      offset := offset + 1;
      var length :- ReadBits(4);
      var elems :- DecodeArray(length);
      var tailMarker :- ReadBits(1);
      r := Success(if tailMarker != 'j' as int then Null else Arr(elems));
    }

    method DecodeTuple(width: nat) returns (r: Result<Json, EtfError>)
      requires Valid() && offset < size
      requires data[offset] == (if width == 1 then 'h' as int else 'i' as int) && (width == 1 || width == 4)
      modifies this`offset
      ensures Valid() && offset >= old(offset)
      ensures Agrees(Parse(lib, data, old(offset)), r, offset)
      decreases size - offset, 0
    {
      offset := offset + 1;
      var length :- ReadBits(width);
      var elems :- DecodeArray(length);
      r := Success(Arr(elems));
    }

    method DecodeMap() returns (r: Result<Json, EtfError>)
      requires Valid() && offset < size && data[offset] == 't' as int
      modifies this`offset
      ensures Valid() && offset >= old(offset)
      ensures Agrees(Parse(lib, data, old(offset)), r, offset)
      decreases size - offset, 0
    {
      offset := offset + 1;
      var length :- ReadBits(4);
      var members :- DecodeEntries(length);
      r := Success(if length == 0 then Null else Obj(members));
    }

    method DecodeEntries(length: nat) returns (r: Result<seq<Member>, EtfError>)
      requires Valid()
      modifies this`offset
      ensures Valid() && offset >= old(offset)
      ensures Agrees(ParseMembers(lib, data, old(offset), length, []), r, offset)
      decreases size - offset, 2
    {
      hide Emplace, Parse;
      ghost var spec := ParseMembers(lib, data, offset, length, []);
      var members := [];
      for i := 0 to length
        invariant Valid() && offset >= old(offset)
        invariant spec == ParseMembers(lib, data, offset, length - i, members)
      {
        var key :- InnerParse();
        var name := KeyText(lib, key);
        if name.Err? {
          return Failure(KeyNotString);
        }
        var value :- InnerParse();
        members := Emplace(members, name.value, value);
      }
      r := Success(members);
    }

    method DecodeReference() returns (r: Result<Json, EtfError>)
      requires Valid()
      modifies this`offset
      ensures Valid() && offset >= old(offset)
      ensures Agrees(ParseReference(lib, data, old(offset)), r, offset)
      decreases size - offset, 2
    {
      var node :- InnerParse();
      var id :- ReadBits(4);
      var creation :- ReadBits(1);
      r := Success(Obj([Named("creation", Int(creation)), Named("id", Arr([Int(ToInt32(id))])), Named("node", node)]));
    }

    method DecodeNewReference() returns (r: Result<Json, EtfError>)
      requires Valid()
      modifies this`offset
      ensures Valid() && offset >= old(offset)
      ensures Agrees(ParseNewReference(lib, data, old(offset)), r, offset)
      decreases size - offset, 2
    {
      var length :- ReadBits(2);
      var node :- InnerParse();
      var creation :- ReadBits(1);
      var ids :- ReadIds(length);
      r := Success(Obj([Named("creation", Int(creation)), Named("id", Arr(ids)), Named("node", node)]));
    }

    method ReadIds(length: nat) returns (r: Result<seq<Json>, EtfError>)
      requires Valid()
      modifies this`offset
      ensures Valid() && offset >= old(offset)
      ensures Agrees(if old(offset) + 4 * length > |data| then Err(PastEnd)
                     else Ok(Words(data, old(offset), length), old(offset) + 4 * length), r, offset)
    {
      var start, ids := offset, [];
      for i := 0 to length
        invariant Valid() && offset == start + 4 * i
        invariant ids == Words(data, start, i)
      {
        var id :- ReadBits(4);
        ids := ids + [Int(ToInt32(id))];
      }
      r := Success(ids);
    }

    method DecodePort() returns (r: Result<Json, EtfError>)
      requires Valid()
      modifies this`offset
      ensures Valid() && offset >= old(offset)
      ensures Agrees(ParsePort(lib, data, old(offset)), r, offset)
      decreases size - offset, 2
    {
      var node :- InnerParse();
      var id :- ReadBits(4);
      var creation :- ReadBits(1);
      r := Success(Obj([Named("creation", Int(creation)), Named("id", Int(id)), Named("node", node)]));
    }

    method DecodePid() returns (r: Result<Json, EtfError>)
      requires Valid()
      modifies this`offset
      ensures Valid() && offset >= old(offset)
      ensures Agrees(ParsePid(lib, data, old(offset)), r, offset)
      decreases size - offset, 2
    {
      var node :- InnerParse();
      var id :- ReadBits(4);
      var serial :- ReadBits(4);
      var creation :- ReadBits(1);
      r := Success(Obj([Named("creation", Int(creation)), Named("id", Int(id)), Named("node", node), Named("serial", Int(serial))]));
    }

    method DecodeExport() returns (r: Result<Json, EtfError>)
      requires Valid()
      modifies this`offset
      ensures Valid() && offset >= old(offset)
      ensures Agrees(ParseExport(lib, data, old(offset)), r, offset)
      decreases size - offset, 2
    {
      var module_ :- InnerParse();
      var fun :- InnerParse();
      var arity :- InnerParse();
      r := Success(Obj([Named("arity", arity), Named("fun", fun), Named("mod", module_)]));
    }

    method DecodeScalar(tag: byte) returns (r: Result<Json, EtfError>)
      requires Valid()
      modifies this`offset
      ensures Valid() && offset >= old(offset)
      ensures Agrees(ParseScalar(lib, data, old(offset), tag), r, offset)
    {
      hide FromBig, FromLittle, Decimal, Octets;
      WidthBounds();
      if tag == 'D' as int {
        r := Failure(DistributionHeader);
      } else if tag == 'a' as int {
        var n :- ReadBits(1);
        r := Success(Int(n));
      } else if tag == 'b' as int {
        var n :- ReadBits(4);
        r := Success(Int(ToInt32(n)));
      } else if tag == 'c' as int {
        r := DecodeFloat();
      } else if tag == 'F' as int {
        var n :- ReadBits(8);
        r := Success(Float(n));
      } else if tag == 'd' as int {
        r := DecodeAtom(2);
      } else if tag == 's' as int {
        r := DecodeAtom(1);
      } else if tag == 'j' as int {
        r := Success(Arr([]));
      } else if tag == 'k' as int {
        r := DecodeStringAsList();
      } else if tag == 'm' as int {
        var length :- ReadBits(4);
        var s := ReadString(length);
        r := Success(s);
      } else if tag == 'n' as int {
        var bytes :- ReadBits(1);
        r := DecodeBigint(bytes);
      } else if tag == 'o' as int {
        var bytes :- ReadBits(4);
        r := DecodeBigint(bytes);
      } else if tag == 'P' as int {
        r := Failure(CompressedTerm);
      } else {
        r := Failure(UnknownType);
      }
    }

    /** Decodes one value at the cursor. */
    method InnerParse() returns (r: Result<Json, EtfError>)
      requires Valid()
      modifies this`offset
      ensures Valid() && offset >= old(offset)
      ensures r.Success? ==> offset > old(offset)
      ensures Agrees(Parse(lib, data, old(offset)), r, offset)
      decreases size - offset, 1
    {
      if offset >= size {
        return Failure(PastEnd);
      }
      var tag := data[offset];
      if tag == 'h' as int {
        r := DecodeTuple(1);
      } else if tag == 'i' as int {
        r := DecodeTuple(4);
      } else if tag == 'l' as int {
        r := DecodeList();
      } else if tag == 't' as int {
        r := DecodeMap();
      } else {
        offset := offset + 1;
        if tag == 'e' as int {
          r := DecodeReference();
        } else if tag == 'r' as int {
          r := DecodeNewReference();
        } else if tag == 'f' as int {
          r := DecodePort();
        } else if tag == 'g' as int {
          r := DecodePid();
        } else if tag == 'q' as int {
          r := DecodeExport();
        } else {
          r := DecodeScalar(tag);
        }
      }
    }

    /** Decodes a whole message. */
    method ParseIn(input: ByteString) returns (r: Result<Json, EtfError>)
      modifies this
      ensures Valid() && data == input
      ensures Agrees(ParseMessage(lib, input), r, offset)
    {
      offset := 0;
      size := |input|;
      data := input;
      var version :- ReadBits(1);
      if version == VERSION {
        r := InnerParse();
      } else {
        r := Failure(WrongVersion);
      }
    }
  }

  /** The sign byte and digits of a big integer. */
  function BigintBody(d: ByteString, pos: nat, digits: nat): Parsed<Json> {
    var (sign, q) :- Read(d, pos, 1);
    WidthBounds();
    if digits > 8 then Err(BigIntTooLarge)
    else if q + digits > |d| then Err(PastEnd)
    else
      Pow256Monotone(digits, 8);
      Ok(Str(BigIntegerText(sign, digits, FromLittle(d[q..q + digits]))), q + digits)
  }

  function Prefixed(elems: seq<Json>, p: Parsed<seq<Json>>): Parsed<seq<Json>> {
    match p
    case Ok(es, next) => Ok(elems + es, next)
    case Err(error) => p
  }

  lemma PrefixedNone(p: Parsed<seq<Json>>)
    ensures Prefixed([], p) == p
  {
    if p.Ok? {
      assert [] + p.value == p.value;
    }
  }

  lemma PrefixedOnce(elems: seq<Json>, e: Json, p: Parsed<seq<Json>>)
    ensures Prefixed(elems, Prefixed([e], p)) == Prefixed(elems + [e], p)
  {
    if p.Ok? {
      assert elems + ([e] + p.value) == elems + [e] + p.value;
    }
  }

  lemma NextDigit(d: ByteString, start: nat, pos: nat)
    requires start <= pos < |d|
    ensures FromLittle(d[start..pos + 1]) == FromLittle(d[start..pos]) + d[pos] * Pow256(pos - start)
    ensures Pow256(pos + 1 - start) == 256 * Pow256(pos - start)
  {
    FromLittleExtends(d[start..pos], d[pos]);
    SliceExtends(d, start, pos);
  }

  lemma {:induction false} FromLittleExtends(s: ByteString, b: byte)
    ensures FromLittle(s + [b]) == FromLittle(s) + b * Pow256(|s|)
  {
    if s == [] {
      assert [b][1..] == [];
    } else {
      assert (s + [b])[1..] == s[1..] + [b];
      FromLittleExtends(s[1..], b);
      assert 256 * (b * Pow256(|s| - 1)) == b * (256 * Pow256(|s| - 1));
    }
  }
}
