/**
 Erlang External Term Format as the Discord library reads and writes it: the JSON values,
 the bytes each value is written as, and the value each byte string is read as. The
 imperative encoder and decoder (EtfCodec.dfy) are proved against these functions.
 */
module EtfFormat {
  import opened Bytes

  /**
   A JSON value. `Int` holds a signed or unsigned 64-bit number, `Float` the 64 bits of a
   double. An object is the library's ordered map: a list of members in key order.
   */
  datatype Json =
    | Null
    | Bool(b: bool)
    | Int(n: int)
    | Float(bits: word64)
    | Str(s: ByteString)
    | Arr(elems: seq<Json>)
    | Obj(members: seq<Member>)

  datatype Member = Member(key: ByteString, value: Json)

  // ---------- Keys ----------

  predicate KeysAscend(ms: seq<Member>) {
    forall i, j :: 0 <= i < j < |ms| ==> KeyLess(ms[i].key, ms[j].key)
  }

  /** Insertion into an ordered map, which leaves an existing key alone. */
  function Emplace(ms: seq<Member>, key: ByteString, value: Json): seq<Member> {
    if ms == [] then [Member(key, value)]
    else if KeyLess(ms[0].key, key) then [ms[0]] + Emplace(ms[1..], key, value)
    else if KeyLess(key, ms[0].key) then [Member(key, value)] + ms
    else ms
  }

  // ---------- Encoding ----------

  const VERSION: byte := 131

  /** The arrays and objects the encoder refuses are those with 2^32 - 1 entries or more. */
  predicate Builds(j: Json) {
    match j
    case Arr(es) => |es| < TWO_32 - 1 && forall e :: e in es ==> Builds(e)
    case Obj(ms) => |ms| < TWO_32 - 1 && forall m :: m in ms ==> Builds(m.value)
    case _ => true
  }

  function EncodeInt(n: int): ByteString {
    var m := ToInt64(n);
    if 0 <= m <= 127 then ['a' as int, m]
    else if m >= TWO_32 - 2 then BigInteger(m)
    else ['b' as int] + Big(m % TWO_32, 4)
  }

  function BigInteger(m: nat): ByteString
    requires m < TWO_64
  {
    LittleLength(m, 8);
    WidthBounds();
    ['n' as int, |Little(m)|, 0] + Little(m)
  }

  function EncodeString(s: ByteString): ByteString {
    ['m' as int] + Big(|s| % TWO_32, 4) + s
  }

  function SmallAtom(text: string): ByteString
    requires |text| < 256 && forall i :: 0 <= i < |text| ==> text[i] as int < 256
  {
    ['s' as int, |text|] + Ascii(text)
  }

  function Ascii(text: string): (s: ByteString)
    requires forall i :: 0 <= i < |text| ==> text[i] as int < 256
    ensures |s| == |text|
  {
    seq(|text|, i requires 0 <= i < |text| => text[i] as int)
  }

  /** The bytes the encoder appends for `j`. */
  function Encode(j: Json): ByteString
    decreases j, 0
  {
    match j
    case Null => SmallAtom("nil")
    case Bool(b) => SmallAtom(if b then "true" else "false")
    case Int(n) => EncodeInt(n)
    case Float(bits) => ['F' as int] + Big(bits, 8)
    case Str(s) => EncodeString(s)
    case Arr(es) =>
      (if es == [] then ['j' as int] else [])
      + ['l' as int] + Big(|es| % TWO_32, 4) + EncodeAll(es) + ['j' as int]
    case Obj(ms) => ['t' as int] + Big(|ms| % TWO_32, 4) + EncodeMembers(ms)
  }

  function EncodeAll(es: seq<Json>): ByteString
    decreases es, 1
  {
    if es == [] then [] else Encode(es[0]) + EncodeAll(es[1..])
  }

  function EncodeMembers(ms: seq<Member>): ByteString
    decreases ms, 1
  {
    if ms == [] then []
    else EncodeString(ms[0].key) + Encode(ms[0].value) + EncodeMembers(ms[1..])
  }

  // ---------- Decoding ----------

  datatype EtfError =
    | PastEnd
    | DistributionHeader
    | UnknownType
    | BigIntTooLarge
    | KeyNotString
    | WrongVersion
    | CompressedTerm

  /** A value and the offset after it, or the exception thrown. */
  datatype Parsed<+T> = Ok(value: T, next: nat) | Err(error: EtfError) {
    predicate IsFailure() {
      Err?
    }

    function PropagateFailure<U>(): Parsed<U>
      requires Err?
    {
      Err(error)
    }

    function Extract(): (T, nat)
      requires Ok?
    {
      (value, next)
    }
  }

  /** What the C library makes of float text, and of a double cast to an unsigned integer. */
  datatype Runtime = Runtime(scanFloat: ByteString -> Json, floatToUnsigned: word64 -> word64)

  function Read(d: ByteString, pos: nat, k: nat): (r: Parsed<nat>)
    ensures r.Ok? <==> pos + k <= |d|
    ensures r.Ok? ==> r.next == pos + k && r.value < Pow256(k)
  {
    if pos + k > |d| then Err(PastEnd) else Ok(FromBig(d[pos..pos + k]), pos + k)
  }

  lemma ReadByte(d: ByteString, pos: nat)
    requires pos < |d|
    ensures Read(d, pos, 1) == Ok(d[pos], pos + 1)
  {
    var s := d[pos..pos + 1];
    assert s[..0] == [] && FromBig([]) == 0;
  }

  /** A string read past the end gives null and leaves the offset where it was. */
  function ReadText(d: ByteString, pos: nat, len: nat): Parsed<Json> {
    if pos + len > |d| then Ok(Null, pos) else Ok(Str(d[pos..pos + len]), pos + len)
  }

  function AtomValue(text: Json): Json {
    match text
    case Str(s) =>
      if s == Ascii("null") || s == Ascii("nil") then Null
      else if s == Ascii("true") then Bool(true)
      else if s == Ascii("false") then Bool(false)
      else text
    case _ => Null
  }

  function ReadAtom(d: ByteString, pos: nat, width: nat): Parsed<Json> {
    var (len, p) :- Read(d, pos, width);
    var (text, q) :- ReadText(d, p, len);
    Ok(AtomValue(text), q)
  }

  function ReadBinary(d: ByteString, pos: nat): Parsed<Json> {
    var (len, p) :- Read(d, pos, 4);
    ReadText(d, p, len)
  }

  function ReadStringList(d: ByteString, pos: nat): Parsed<Json> {
    var (len, p) :- Read(d, pos, 2);
    if p + len > |d| then Err(PastEnd)
    else Ok(Arr(Octets(d, p, len)), p + len)
  }

  function Octets(d: ByteString, pos: nat, len: nat): (r: seq<Json>)
    requires pos + len <= |d|
    ensures |r| == len
  {
    seq(len, i requires 0 <= i < len => Int(d[pos + i]))
  }

  /** The text of a big integer of `digits` bytes with the given sign byte. */
  function BigIntegerText(sign: byte, digits: nat, value: word64): ByteString {
    if digits <= 4 && sign == 0 then Decimal(value % TWO_32)
    else if digits <= 4 && value % TWO_32 < TWO_31 then Decimal(-ToInt32(value))
    else if sign == 0 then Decimal(value)
    else Decimal(ToInt64(-ToInt64(value)))
  }

  function ReadBigInteger(d: ByteString, pos: nat, width: nat): Parsed<Json> {
    var (digits, p) :- Read(d, pos, width);
    var (sign, q) :- Read(d, p, 1);
    WidthBounds();
    if digits > 8 then Err(BigIntTooLarge)
    else if q + digits > |d| then Err(PastEnd)
    else
      Pow256Monotone(digits, 8);
      Ok(Str(BigIntegerText(sign, digits, FromLittle(d[q..q + digits]))), q + digits)
  }

  lemma Pow256Monotone(a: nat, b: nat)
    requires a <= b
    ensures Pow256(a) <= Pow256(b)
    decreases b
  {
    if a < b {
      Pow256Monotone(a, b - 1);
    }
  }

  function ReadFloatText(lib: Runtime, d: ByteString, pos: nat): Parsed<Json> {
    if pos + 31 > |d| then Ok(Null, pos) else Ok(lib.scanFloat(d[pos..pos + 31]), pos + 31)
  }

  /** The tags whose values hold no further values. */
  function ParseScalar(lib: Runtime, d: ByteString, pos: nat, tag: byte): (r: Parsed<Json>)
    requires pos <= |d|
    ensures r.Ok? ==> pos <= r.next <= |d|
  {
    WidthBounds();
    if tag == 'D' as int then Err(DistributionHeader)
    else if tag == 'a' as int then
      var (n, p) :- Read(d, pos, 1);
      Ok(Int(n), p)
    else if tag == 'b' as int then
      var (n, p) :- Read(d, pos, 4);
      Ok(Int(ToInt32(n)), p)
    else if tag == 'c' as int then ReadFloatText(lib, d, pos)
    else if tag == 'F' as int then
      var (n, p) :- Read(d, pos, 8);
      Ok(Float(n), p)
    else if tag == 'd' as int then ReadAtom(d, pos, 2)
    else if tag == 's' as int then ReadAtom(d, pos, 1)
    else if tag == 'j' as int then Ok(Arr([]), pos)
    else if tag == 'k' as int then ReadStringList(d, pos)
    else if tag == 'm' as int then ReadBinary(d, pos)
    else if tag == 'n' as int then ReadBigInteger(d, pos, 1)
    else if tag == 'o' as int then ReadBigInteger(d, pos, 4)
    else if tag == 'P' as int then Err(CompressedTerm)
    else Err(UnknownType)
  }

  /** The key of a map entry: numbers become text, anything but a number or text is refused. */
  function KeyText(lib: Runtime, key: Json): Parsed<ByteString> {
    match key
    case Int(n) => Ok(Decimal(n % TWO_64), 0)
    case Float(bits) => Ok(Decimal(lib.floatToUnsigned(bits)), 0)
    case Str(s) => Ok(s, 0)
    case _ => Err(KeyNotString)
  }

  function Words(d: ByteString, pos: nat, len: nat): (ids: seq<Json>)
    requires pos + 4 * len <= |d|
    ensures |ids| == len
  {
    seq(len, i requires 0 <= i < len => Int(ToInt32(FromBig(d[pos + 4 * i..pos + 4 * i + 4]))))
  }

  /** Reads one value at `pos`. */
  function Parse(lib: Runtime, d: ByteString, pos: nat): (r: Parsed<Json>)
    ensures r.Ok? ==> pos < r.next <= |d|
    decreases |d| - pos, 0
  {
    WidthBounds();
    if pos >= |d| then Err(PastEnd)
    else if d[pos] == 'h' as int then
      var (len, p) :- Read(d, pos + 1, 1);
      var (es, q) :- ParseAll(lib, d, p, len);
      Ok(Arr(es), q)
    else if d[pos] == 'i' as int then
      var (len, p) :- Read(d, pos + 1, 4);
      var (es, q) :- ParseAll(lib, d, p, len);
      Ok(Arr(es), q)
    else if d[pos] == 'l' as int then
      var (len, p) :- Read(d, pos + 1, 4);
      var (es, q) :- ParseAll(lib, d, p, len);
      var (tail, t) :- Read(d, q, 1);
      Ok(if tail == 'j' as int then Arr(es) else Null, t)
    else if d[pos] == 't' as int then
      var (len, p) :- Read(d, pos + 1, 4);
      var (ms, q) :- ParseMembers(lib, d, p, len, []);
      Ok(if len == 0 then Null else Obj(ms), q)
    else if d[pos] == 'e' as int then ParseReference(lib, d, pos + 1)
    else if d[pos] == 'r' as int then ParseNewReference(lib, d, pos + 1)
    else if d[pos] == 'f' as int then ParsePort(lib, d, pos + 1)
    else if d[pos] == 'g' as int then ParsePid(lib, d, pos + 1)
    else if d[pos] == 'q' as int then ParseExport(lib, d, pos + 1)
    else ParseScalar(lib, d, pos + 1, d[pos])
  }

  /** Reads `n` values. */
  function ParseAll(lib: Runtime, d: ByteString, pos: nat, n: nat): (r: Parsed<seq<Json>>)
    requires pos <= |d|
    ensures r.Ok? ==> pos + n <= r.next <= |d| && |r.value| == n
    decreases |d| - pos, 1, n
  {
    if n == 0 then Ok([], pos)
    else
      var (e, p) :- Parse(lib, d, pos);
      var (es, q) :- ParseAll(lib, d, p, n - 1);
      Ok([e] + es, q)
  }

  /** Reads `n` keys and values into the ordered map `ms`. */
  function ParseMembers(lib: Runtime, d: ByteString, pos: nat, n: nat, ms: seq<Member>): (r: Parsed<seq<Member>>)
    requires pos <= |d|
    ensures r.Ok? ==> pos + 2 * n <= r.next <= |d|
    decreases |d| - pos, 1, n
  {
    if n == 0 then Ok(ms, pos)
    else
      var (key, p) :- Parse(lib, d, pos);
      var (text, _) :- KeyText(lib, key);
      var (value, q) :- Parse(lib, d, p);
      ParseMembers(lib, d, q, n - 1, Emplace(ms, text, value))
  }

  function Named(name: string, value: Json): Member
    requires forall i :: 0 <= i < |name| ==> name[i] as int < 256
  {
    Member(Ascii(name), value)
  }

  function ParseReference(lib: Runtime, d: ByteString, pos: nat): (r: Parsed<Json>)
    requires pos <= |d|
    ensures r.Ok? ==> pos < r.next <= |d|
    decreases |d| - pos, 1
  {
    var (node, p) :- Parse(lib, d, pos);
    var (id, q) :- Read(d, p, 4);
    var (creation, t) :- Read(d, q, 1);
    Ok(Obj([Named("creation", Int(creation)), Named("id", Arr([Int(ToInt32(id))])), Named("node", node)]), t)
  }

  function ParseNewReference(lib: Runtime, d: ByteString, pos: nat): (r: Parsed<Json>)
    requires pos <= |d|
    ensures r.Ok? ==> pos < r.next <= |d|
    decreases |d| - pos, 1
  {
    var (len, p) :- Read(d, pos, 2);
    var (node, q) :- Parse(lib, d, p);
    var (creation, t) :- Read(d, q, 1);
    if t + 4 * len > |d| then Err(PastEnd)
    else Ok(Obj([Named("creation", Int(creation)), Named("id", Arr(Words(d, t, len))), Named("node", node)]), t + 4 * len)
  }

  function ParsePort(lib: Runtime, d: ByteString, pos: nat): (r: Parsed<Json>)
    requires pos <= |d|
    ensures r.Ok? ==> pos < r.next <= |d|
    decreases |d| - pos, 1
  {
    var (node, p) :- Parse(lib, d, pos);
    var (id, q) :- Read(d, p, 4);
    var (creation, t) :- Read(d, q, 1);
    Ok(Obj([Named("creation", Int(creation)), Named("id", Int(id)), Named("node", node)]), t)
  }

  function ParsePid(lib: Runtime, d: ByteString, pos: nat): (r: Parsed<Json>)
    requires pos <= |d|
    ensures r.Ok? ==> pos < r.next <= |d|
    decreases |d| - pos, 1
  {
    var (node, p) :- Parse(lib, d, pos);
    var (id, q) :- Read(d, p, 4);
    var (serial, s) :- Read(d, q, 4);
    var (creation, t) :- Read(d, s, 1);
    Ok(Obj([Named("creation", Int(creation)), Named("id", Int(id)), Named("node", node), Named("serial", Int(serial))]), t)
  }

  function ParseExport(lib: Runtime, d: ByteString, pos: nat): (r: Parsed<Json>)
    requires pos <= |d|
    ensures r.Ok? ==> pos < r.next <= |d|
    decreases |d| - pos, 1
  {
    var (module_, p) :- Parse(lib, d, pos);
    var (fun, q) :- Parse(lib, d, p);
    var (arity, t) :- Parse(lib, d, q);
    Ok(Obj([Named("arity", arity), Named("fun", fun), Named("mod", module_)]), t)
  }

  /** Reads a whole message: the version byte and one value. */
  function ParseMessage(lib: Runtime, d: ByteString): Parsed<Json> {
    var (version, p) :- Read(d, 0, 1);
    if version == VERSION then Parse(lib, d, p) else Err(WrongVersion)
  }
}
