/**
 External terms of Erlang as they are written, with their tags and widths, and what each of them
 means, stated apart from the decoder, which reads a term as what it means.
 */
module EtfTerms {
  import opened Wrappers
  import opened Bytes
  import opened EtfFormat
  import opened EtfRoundTrip

  /**
   A term as written. `bits` are those of a signed number; the bytes of a big number come least
   significant first. A text can be cut: its length is written, and the message ends before it does.
   */
  datatype Term =
    | SmallIntegerExt(value: nat)
    | IntegerExt(bits: nat)
    | FloatExt(text: ByteString)
    | NewFloatExt(double: nat)
    | AtomExt(name: ByteString)
    | SmallAtomExt(name: ByteString)
    | SmallTupleExt(elems: seq<Term>)
    | LargeTupleExt(elems: seq<Term>)
    | NilExt
    | StringExt(octets: ByteString)
    | ListExt(elems: seq<Term>, tail: byte)
    | MapExt(entries: seq<Entry>)
    | BinaryExt(bytes: ByteString)
    | SmallBigExt(sign: byte, digits: ByteString)
    | LargeBigExt(sign: byte, digits: ByteString)
    | ReferenceExt(node: Term, id: nat, creation: nat)
    | NewReferenceExt(node: Term, creation: nat, ids: seq<nat>)
    | PortExt(node: Term, id: nat, creation: nat)
    | PidExt(node: Term, id: nat, serial: nat, creation: nat)
    | ExportExt(module_: Term, fun: Term, arity: Term)
    | CutFloat
    | CutAtom(announced: nat)
    | CutSmallAtom(announced: nat)
    | CutBinary(announced: nat)

  datatype Entry = Entry(key: Term, value: Term)

  // ---------- As written ----------

  function TermBytes(t: Term): ByteString
    decreases t, 0
  {
    match t
    case SmallIntegerExt(n) => ['a' as int] + Big(n, 1)
    case IntegerExt(bits) => ['b' as int] + Big(bits, 4)
    case FloatExt(text) => ['c' as int] + text
    case NewFloatExt(double) => ['F' as int] + Big(double, 8)
    case AtomExt(name) => ['d' as int] + (Big(|name|, 2) + name)
    case SmallAtomExt(name) => ['s' as int] + (Big(|name|, 1) + name)
    case SmallTupleExt(es) => ['h' as int] + (Big(|es|, 1) + AllBytes(es))
    case LargeTupleExt(es) => ['i' as int] + (Big(|es|, 4) + AllBytes(es))
    case NilExt => ['j' as int]
    case StringExt(octets) => ['k' as int] + (Big(|octets|, 2) + octets)
    case ListExt(es, tail) => ['l' as int] + (Big(|es|, 4) + (AllBytes(es) + [tail]))
    case MapExt(entries) => ['t' as int] + (Big(|entries|, 4) + AllEntryBytes(entries))
    case BinaryExt(bytes) => ['m' as int] + (Big(|bytes|, 4) + bytes)
    case SmallBigExt(sign, digits) => ['n' as int] + (Big(|digits|, 1) + ([sign] + digits))
    case LargeBigExt(sign, digits) => ['o' as int] + (Big(|digits|, 4) + ([sign] + digits))
    case ReferenceExt(node, id, creation) => ['e' as int] + (TermBytes(node) + (Big(id, 4) + Big(creation, 1)))
    case NewReferenceExt(node, creation, ids) => ['r' as int] + (Big(|ids|, 2) + (TermBytes(node) + (Big(creation, 1) + WordBytes(ids))))
    case PortExt(node, id, creation) => ['f' as int] + (TermBytes(node) + (Big(id, 4) + Big(creation, 1)))
    case PidExt(node, id, serial, creation) => ['g' as int] + (TermBytes(node) + (Big(id, 4) + (Big(serial, 4) + Big(creation, 1))))
    case ExportExt(module_, fun, arity) => ['q' as int] + (TermBytes(module_) + (TermBytes(fun) + TermBytes(arity)))
    case CutFloat => ['c' as int]
    case CutAtom(announced) => ['d' as int] + Big(announced, 2)
    case CutSmallAtom(announced) => ['s' as int] + Big(announced, 1)
    case CutBinary(announced) => ['m' as int] + Big(announced, 4)
  }

  function AllBytes(es: seq<Term>): ByteString
    decreases es, 1
  {
    if es == [] then [] else TermBytes(es[0]) + AllBytes(es[1..])
  }

  function EntryBytes(e: Entry): ByteString
    decreases e, 2
  {
    TermBytes(e.key) + TermBytes(e.value)
  }

  function AllEntryBytes(entries: seq<Entry>): ByteString
    decreases entries, 1
  {
    if entries == [] then [] else EntryBytes(entries[0]) + AllEntryBytes(entries[1..])
  }

  function WordBytes(ids: seq<nat>): (s: ByteString)
    ensures |s| == 4 * |ids|
  {
    if ids == [] then [] else Big(ids[0], 4) + WordBytes(ids[1..])
  }

  /**
   Counts and numbers fit their fields, and a cut text is one for which there is no room in the
   `room` bytes the message has from the term's first byte on.
   */
  predicate Fits(t: Term, room: int)
    decreases t, 0
  {
    match t
    case SmallIntegerExt(n) => n < 0x100
    case IntegerExt(bits) => bits < 0x1_0000_0000
    case FloatExt(text) => |text| == 31
    case NewFloatExt(double) => double < 0x1_0000_0000_0000_0000
    case AtomExt(name) => |name| < 0x1_0000
    case SmallAtomExt(name) => |name| < 0x100
    case SmallTupleExt(es) => |es| < 0x100 && FitAll(es, room - 2)
    case LargeTupleExt(es) => |es| < 0x1_0000_0000 && FitAll(es, room - 5)
    case NilExt => true
    case StringExt(octets) => |octets| < 0x1_0000
    case ListExt(es, _) => |es| < 0x1_0000_0000 && FitAll(es, room - 5)
    case MapExt(entries) => |entries| < 0x1_0000_0000 && FitEntries(entries, room - 5)
    case BinaryExt(bytes) => |bytes| < 0x1_0000_0000
    case SmallBigExt(_, digits) => |digits| < 0x100
    case LargeBigExt(_, digits) => |digits| < 0x1_0000_0000
    case ReferenceExt(node, id, creation) => Fits(node, room - 1) && id < 0x1_0000_0000 && creation < 0x100
    case NewReferenceExt(node, creation, ids) =>
      Fits(node, room - 3) && creation < 0x100 && |ids| < 0x1_0000 && forall i :: 0 <= i < |ids| ==> ids[i] < 0x1_0000_0000
    case PortExt(node, id, creation) => Fits(node, room - 1) && id < 0x1_0000_0000 && creation < 0x100
    case PidExt(node, id, serial, creation) =>
      Fits(node, room - 1) && id < 0x1_0000_0000 && serial < 0x1_0000_0000 && creation < 0x100
    case ExportExt(module_, fun, arity) =>
      && Fits(module_, room - 1)
      && Fits(fun, room - 1 - |TermBytes(module_)|)
      && Fits(arity, room - 1 - |TermBytes(module_)| - |TermBytes(fun)|)
    case CutFloat => room < 32
    case CutAtom(announced) => announced < 0x1_0000 && room < 3 + announced
    case CutSmallAtom(announced) => announced < 0x100 && room < 2 + announced
    case CutBinary(announced) => announced < 0x1_0000_0000 && room < 5 + announced
  }

  predicate FitAll(es: seq<Term>, room: int)
    decreases es, 1
  {
    es == [] || (Fits(es[0], room) && FitAll(es[1..], room - |TermBytes(es[0])|))
  }

  predicate FitsEntry(e: Entry, room: int)
    decreases e, 2
  {
    Fits(e.key, room) && Fits(e.value, room - |TermBytes(e.key)|)
  }

  predicate FitEntries(entries: seq<Entry>, room: int)
    decreases entries, 1
  {
    entries == [] || (FitsEntry(entries[0], room) && FitEntries(entries[1..], room - |EntryBytes(entries[0])|))
  }

  /** The term stands in the message at `pos`. */
  predicate Stands(d: ByteString, pos: nat, t: Term) {
    At(d, pos, TermBytes(t)) && Fits(t, |d| - pos)
  }

  // ---------- What a term means ----------

  type Meant<T> = Result<T, EtfError>

  const CREATION: ByteString := ['c' as int, 'r' as int, 'e' as int, 'a' as int, 't' as int, 'i' as int, 'o' as int, 'n' as int]
  const ID: ByteString := ['i' as int, 'd' as int]
  const NODE: ByteString := ['n' as int, 'o' as int, 'd' as int, 'e' as int]
  const SERIAL: ByteString := ['s' as int, 'e' as int, 'r' as int, 'i' as int, 'a' as int, 'l' as int]
  const ARITY: ByteString := ['a' as int, 'r' as int, 'i' as int, 't' as int, 'y' as int]
  const FUN: ByteString := ['f' as int, 'u' as int, 'n' as int]
  const MOD: ByteString := ['m' as int, 'o' as int, 'd' as int]

  function Signed(bits: nat): int {
    if bits < 0x8000_0000 then bits else bits - 0x1_0000_0000
  }

  function AtomMeaning(name: ByteString): Json {
    if name == ['n' as int, 'i' as int, 'l' as int] then Null
    else if name == ['n' as int, 'u' as int, 'l' as int, 'l' as int] then Null
    else if name == ['t' as int, 'r' as int, 'u' as int, 'e' as int] then Bool(true)
    else if name == ['f' as int, 'a' as int, 'l' as int, 's' as int, 'e' as int] then Bool(false)
    else Str(name)
  }

  /** The number the digits stand for, the last the most significant. */
  function Weighed(digits: ByteString): nat {
    if digits == [] then 0
    else Weighed(digits[..|digits| - 1]) + digits[|digits| - 1] * Pow256(|digits| - 1)
  }

  /** The text of a number, with a minus for any sign but 0; more than 2^63 loses the minus and what is over 2^64. */
  function BigMeaning(sign: byte, digits: ByteString): Meant<Json> {
    var n := Weighed(digits);
    if |digits| > 8 then Failure(BigIntTooLarge)
    else if sign == 0 then Success(Str(Decimal(n)))
    else if n <= 0x8000_0000_0000_0000 then Success(Str(Decimal(0 - n)))
    else Success(Str(Decimal(0x1_0000_0000_0000_0000 - n)))
  }

  function KeyMeaning(lib: Runtime, key: Json): Meant<ByteString> {
    match key
    case Int(n) => Success(Decimal(n % 0x1_0000_0000_0000_0000))
    case Float(bits) => Success(Decimal(lib.floatToUnsigned(bits)))
    case Str(s) => Success(s)
    case _ => Failure(KeyNotString)
  }

  function OctetValues(octets: ByteString): (r: seq<Json>)
    ensures |r| == |octets| && forall i :: 0 <= i < |r| ==> r[i] == Int(octets[i])
  {
    if octets == [] then [] else [Int(octets[0])] + OctetValues(octets[1..])
  }

  function SignedAll(ids: seq<nat>): (r: seq<Json>)
    ensures |r| == |ids| && forall i :: 0 <= i < |r| ==> r[i] == Int(Signed(ids[i]))
  {
    if ids == [] then [] else [Int(Signed(ids[0]))] + SignedAll(ids[1..])
  }

  /** An object that names a node, from the node's value. */
  function NodeMeans(t: Term, v: Json): Json
    requires t.ReferenceExt? || t.PortExt? || t.NewReferenceExt? || t.PidExt?
  {
    match t
    case ReferenceExt(_, id, creation) => Obj([Member(CREATION, Int(creation)), Member(ID, Arr([Int(Signed(id))])), Member(NODE, v)])
    case NewReferenceExt(_, creation, ids) => Obj([Member(CREATION, Int(creation)), Member(ID, Arr(SignedAll(ids))), Member(NODE, v)])
    case PortExt(_, id, creation) => Obj([Member(CREATION, Int(creation)), Member(ID, Int(id)), Member(NODE, v)])
    case PidExt(_, id, serial, creation) =>
      Obj([Member(CREATION, Int(creation)), Member(ID, Int(id)), Member(NODE, v), Member(SERIAL, Int(serial))])
  }

  function Meaning(lib: Runtime, t: Term): Meant<Json>
    decreases t, 0
  {
    match t
    case SmallIntegerExt(n) => Success(Int(n))
    case IntegerExt(bits) => Success(Int(Signed(bits)))
    case FloatExt(text) => Success(lib.scanFloat(text))
    case NewFloatExt(double) => Success(Float(double % 0x1_0000_0000_0000_0000))
    case AtomExt(name) => Success(AtomMeaning(name))
    case SmallAtomExt(name) => Success(AtomMeaning(name))
    case SmallTupleExt(es) => var vs :- MeaningAll(lib, es); Success(Arr(vs))
    case LargeTupleExt(es) => var vs :- MeaningAll(lib, es); Success(Arr(vs))
    case NilExt => Success(Arr([]))
    case StringExt(octets) => Success(Arr(OctetValues(octets)))
    case ListExt(es, tail) => var vs :- MeaningAll(lib, es); Success(if tail == 'j' as int then Arr(vs) else Null)
    case MapExt(entries) => var pairs :- MeaningPairs(lib, entries); Success(if entries == [] then Null else Obj(Gathered([], pairs)))
    case BinaryExt(bytes) => Success(Str(bytes))
    case SmallBigExt(sign, digits) => BigMeaning(sign, digits)
    case LargeBigExt(sign, digits) => BigMeaning(sign, digits)
    case ReferenceExt(node, _, _) => var v :- Meaning(lib, node); Success(NodeMeans(t, v))
    case NewReferenceExt(node, _, _) => var v :- Meaning(lib, node); Success(NodeMeans(t, v))
    case PortExt(node, _, _) => var v :- Meaning(lib, node); Success(NodeMeans(t, v))
    case PidExt(node, _, _, _) => var v :- Meaning(lib, node); Success(NodeMeans(t, v))
    case ExportExt(module_, fun, arity) =>
      var m :- Meaning(lib, module_);
      var f :- Meaning(lib, fun);
      var a :- Meaning(lib, arity);
      Success(Obj([Member(ARITY, a), Member(FUN, f), Member(MOD, m)]))
    case _ => Success(Null)
  }

  function MeaningAll(lib: Runtime, es: seq<Term>): Meant<seq<Json>>
    decreases es, 1
  {
    if es == [] then Success([])
    else
      var v :- Meaning(lib, es[0]);
      var vs :- MeaningAll(lib, es[1..]);
      Success([v] + vs)
  }

  function MeaningPair(lib: Runtime, e: Entry): Meant<Member>
    decreases e, 2
  {
    var key :- Meaning(lib, e.key);
    var text :- KeyMeaning(lib, key);
    var value :- Meaning(lib, e.value);
    Success(Member(text, value))
  }

  function MeaningPairs(lib: Runtime, entries: seq<Entry>): Meant<seq<Member>>
    decreases entries, 1
  {
    if entries == [] then Success([])
    else
      var pair :- MeaningPair(lib, entries[0]);
      var pairs :- MeaningPairs(lib, entries[1..]);
      Success([pair] + pairs)
  }

  // ---------- An object's members ----------

  /** The pairs added to the members, in order. */
  function Gathered(ms: seq<Member>, pairs: seq<Member>): seq<Member>
    decreases |pairs|
  {
    if pairs == [] then ms else Gathered(Emplace(ms, pairs[0].key, pairs[0].value), pairs[1..])
  }

  // ---------- Fields ----------

  /** What the decoder should give for what is meant, having read up to `next`. */
  function Outcome<T>(m: Meant<T>, next: nat): Parsed<T> {
    match m
    case Success(value) => Ok(value, next)
    case Failure(error) => Err(error)
  }

  lemma FieldRead(d: ByteString, pos: nat, n: nat, k: nat, rest: ByteString)
    requires At(d, pos, Big(n, k) + rest) && n < Pow256(k)
    ensures Read(d, pos, k) == Ok(n, pos + k) && At(d, pos + k, rest)
  {
    AtSplit(d, pos, Big(n, k), rest);
    ReadBig(d, pos, n, k);
  }

  lemma TextThere(d: ByteString, pos: nat, text: ByteString)
    requires At(d, pos, text)
    ensures ReadText(d, pos, |text|) == Ok(Str(text), pos + |text|)
  {
  }

  lemma AtomNames(name: ByteString)
    ensures AtomValue(Str(name)) == AtomMeaning(name)
  {
    assert Ascii("nil") == ['n' as int, 'i' as int, 'l' as int];
    assert Ascii("null") == ['n' as int, 'u' as int, 'l' as int, 'l' as int];
    assert Ascii("true") == ['t' as int, 'r' as int, 'u' as int, 'e' as int];
    assert Ascii("false") == ['f' as int, 'a' as int, 'l' as int, 's' as int, 'e' as int];
  }

  lemma AtomRead(d: ByteString, pos: nat, name: ByteString, k: nat)
    requires At(d, pos, Big(|name|, k) + name) && |name| < Pow256(k)
    ensures ReadAtom(d, pos, k) == Ok(AtomMeaning(name), pos + k + |name|)
  {
    hide Read, Big, Pow256, AtomMeaning, AtomValue;
    FieldRead(d, pos, |name|, k, name);
    TextThere(d, pos + k, name);
    AtomNames(name);
  }

  lemma AtomCutOff(d: ByteString, pos: nat, n: nat, k: nat)
    requires At(d, pos, Big(n, k)) && n < Pow256(k) && pos + k + n > |d|
    ensures ReadAtom(d, pos, k) == Ok(Null, pos + k)
  {
    hide Read, Big, Pow256;
    ReadBig(d, pos, n, k);
  }

  lemma BinaryRead(d: ByteString, pos: nat, bytes: ByteString)
    requires At(d, pos, Big(|bytes|, 4) + bytes) && |bytes| < Pow256(4)
    ensures ReadBinary(d, pos) == Ok(Str(bytes), pos + 4 + |bytes|)
  {
    hide Read, Big, Pow256;
    FieldRead(d, pos, |bytes|, 4, bytes);
    TextThere(d, pos + 4, bytes);
  }

  lemma BinaryCutOff(d: ByteString, pos: nat, n: nat)
    requires At(d, pos, Big(n, 4)) && n < Pow256(4) && pos + 4 + n > |d|
    ensures ReadBinary(d, pos) == Ok(Null, pos + 4)
  {
    hide Read, Big, Pow256;
    ReadBig(d, pos, n, 4);
  }

  lemma OctetsRead(d: ByteString, pos: nat, octets: ByteString)
    requires At(d, pos, Big(|octets|, 2) + octets) && |octets| < Pow256(2)
    ensures ReadStringList(d, pos) == Ok(Arr(OctetValues(octets)), pos + 2 + |octets|)
  {
    hide Read, Big, Pow256, Octets, OctetValues;
    FieldRead(d, pos, |octets|, 2, octets);
    OctetsAre(d, pos + 2, octets);
  }

  lemma {:induction false} OctetsAre(d: ByteString, pos: nat, octets: ByteString)
    requires At(d, pos, octets)
    ensures Octets(d, pos, |octets|) == OctetValues(octets)
    decreases |octets|
  {
    if octets != [] {
      assert octets == [octets[0]] + octets[1..];
      Tagged(d, pos, octets[0], octets[1..]);
      hide OctetValues;
      OctetsAre(d, pos + 1, octets[1..]);
      OctetsNext(d, pos, |octets|);
      assert OctetValues(octets) == [Int(octets[0])] + OctetValues(octets[1..]);
    }
  }

  lemma OctetsNext(d: ByteString, pos: nat, len: nat)
    requires len > 0 && pos + len <= |d|
    ensures Octets(d, pos, len) == [Int(d[pos])] + Octets(d, pos + 1, len - 1)
  {
  }

  lemma {:induction false} WeighedIs(digits: ByteString)
    ensures FromLittle(digits) == Weighed(digits) < Pow256(|digits|)
  {
    if digits != [] {
      var front, last := digits[..|digits| - 1], digits[|digits| - 1];
      WeighedIs(front);
      LastDigit(front, last);
      assert digits == front + [last];
    }
  }

  lemma {:induction false} LastDigit(front: ByteString, last: byte)
    ensures FromLittle(front + [last]) == FromLittle(front) + last * Pow256(|front|)
  {
    if front == [] {
      assert [last][1..] == [] && FromLittle([]) == 0;
      assert [] + [last] == [last];
    } else {
      LastDigit(front[1..], last);
      assert (front + [last])[1..] == front[1..] + [last];
      assert 256 * (last * Pow256(|front| - 1)) == last * Pow256(|front|);
    }
  }

  lemma BigIs(sign: byte, digits: ByteString)
    requires |digits| <= 8 && Weighed(digits) < TWO_64 && (|digits| <= 4 ==> Weighed(digits) < TWO_32)
    ensures BigMeaning(sign, digits) == Success(Str(BigIntegerText(sign, |digits|, Weighed(digits))))
  {
    hide Weighed, Decimal;
    var n: int := Weighed(digits);
    if sign != 0 && |digits| > 4 {
      assert ToInt64(-ToInt64(n)) == if n <= 0x8000_0000_0000_0000 then 0 - n else 0x1_0000_0000_0000_0000 - n;
    }
  }

  lemma BigRead(d: ByteString, pos: nat, sign: byte, digits: ByteString, k: nat)
    requires At(d, pos, Big(|digits|, k) + ([sign] + digits)) && |digits| < Pow256(k)
    ensures ReadBigInteger(d, pos, k) == Outcome(BigMeaning(sign, digits), pos + k + 1 + |digits|)
  {
    hide At, Read, Big, Pow256, BigMeaning, ReadBigInteger;
    FieldRead(d, pos, |digits|, k, [sign] + digits);
    Tagged(d, pos + k, sign, digits);
    ReadByte(d, pos + k);
    DigitsRead(d, pos, sign, digits, k);
  }

  lemma DigitsRead(d: ByteString, pos: nat, sign: byte, digits: ByteString, k: nat)
    requires Read(d, pos, k) == Ok(|digits|, pos + k) && Read(d, pos + k, 1) == Ok(sign, pos + k + 1) && At(d, pos + k + 1, digits)
    ensures ReadBigInteger(d, pos, k) == Outcome(BigMeaning(sign, digits), pos + k + 1 + |digits|)
  {
    hide Read, BigMeaning, FromLittle, Weighed, BigIntegerText, Pow256;
    if |digits| <= 8 {
      WeighedIs(digits);
      WidthBounds();
      Pow256Monotone(|digits|, 8);
      if |digits| <= 4 {
        Pow256Monotone(|digits|, 4);
      }
      BigIs(sign, digits);
    } else {
      TooLarge(sign, digits);
    }
  }

  lemma TooLarge(sign: byte, digits: ByteString)
    requires |digits| > 8
    ensures BigMeaning(sign, digits) == Failure(BigIntTooLarge)
  {
  }

  // ---------- Single values ----------

  predicate Single(t: Term) {
    || t.SmallIntegerExt? || t.IntegerExt? || t.FloatExt? || t.NewFloatExt? || t.AtomExt? || t.SmallAtomExt? || t.NilExt?
    || t.StringExt? || t.BinaryExt? || t.SmallBigExt? || t.LargeBigExt? || t.CutFloat? || t.CutAtom? || t.CutSmallAtom? || t.CutBinary?
  }

  /** The decoder reads the term as what it means, and consumes just its bytes. */
  predicate Reads(lib: Runtime, d: ByteString, pos: nat, t: Term) {
    Parse(lib, d, pos) == Outcome(Meaning(lib, t), pos + |TermBytes(t)|)
  }

  lemma SingleRead(lib: Runtime, d: ByteString, pos: nat, t: Term)
    requires Single(t) && Stands(d, pos, t)
    ensures Reads(lib, d, pos, t)
  {
    hide Parse, ParseScalar, Big, FromBig, Pow256, AtomMeaning, BigMeaning;
    var tag, rest := TermBytes(t)[0], TermBytes(t)[1..];
    assert TermBytes(t) == [tag] + rest;
    Tagged(d, pos, tag, rest);
    ScalarTag(lib, d, pos);
    if t.AtomExt? || t.SmallAtomExt? || t.CutAtom? || t.CutSmallAtom? || t.SmallBigExt? || t.LargeBigExt? {
      AtomOrBigRead(lib, d, pos, t);
    } else {
      OtherRead(lib, d, pos, t);
    }
  }

  lemma AtomOrBigRead(lib: Runtime, d: ByteString, pos: nat, t: Term)
    requires t.AtomExt? || t.SmallAtomExt? || t.CutAtom? || t.CutSmallAtom? || t.SmallBigExt? || t.LargeBigExt?
    requires Stands(d, pos, t) && pos < |d| && d[pos] == TermBytes(t)[0] && At(d, pos + 1, TermBytes(t)[1..])
    ensures ParseScalar(lib, d, pos + 1, d[pos]) == Outcome(Meaning(lib, t), pos + |TermBytes(t)|)
  {
    hide ReadAtom, ReadBigInteger, Big, FromBig, Pow256, AtomMeaning, BigMeaning;
    WidthBounds();
    match t
    case AtomExt(name) => AtomRead(d, pos + 1, name, 2);
    case SmallAtomExt(name) => AtomRead(d, pos + 1, name, 1);
    case CutAtom(n) => AtomCutOff(d, pos + 1, n, 2);
    case CutSmallAtom(n) => AtomCutOff(d, pos + 1, n, 1);
    case SmallBigExt(sign, digits) => BigRead(d, pos + 1, sign, digits, 1);
    case LargeBigExt(sign, digits) => BigRead(d, pos + 1, sign, digits, 4);
  }

  lemma OtherRead(lib: Runtime, d: ByteString, pos: nat, t: Term)
    requires t.SmallIntegerExt? || t.IntegerExt? || t.FloatExt? || t.NewFloatExt? || t.NilExt? || t.StringExt? || t.BinaryExt? || t.CutFloat? || t.CutBinary?
    requires Stands(d, pos, t) && pos < |d| && d[pos] == TermBytes(t)[0] && At(d, pos + 1, TermBytes(t)[1..])
    ensures ParseScalar(lib, d, pos + 1, d[pos]) == Outcome(Meaning(lib, t), pos + |TermBytes(t)|)
  {
    hide ReadStringList, ReadBinary, Read, Big, FromBig, Pow256;
    WidthBounds();
    match t
    case SmallIntegerExt(n) => ReadBig(d, pos + 1, n, 1);
    case IntegerExt(bits) => ReadBig(d, pos + 1, bits, 4);
    case FloatExt(text) =>
    case NewFloatExt(double) => ReadBig(d, pos + 1, double, 8);
    case NilExt =>
    case StringExt(octets) => OctetsRead(d, pos + 1, octets);
    case BinaryExt(bytes) => BinaryRead(d, pos + 1, bytes);
    case CutFloat =>
    case CutBinary(n) => BinaryCutOff(d, pos + 1, n);
  }

  // ---------- Values that hold others ----------

  lemma TupleMeans(lib: Runtime, t: Term)
    requires t.SmallTupleExt? || t.LargeTupleExt? || t.ListExt?
    ensures var vs := MeaningAll(lib, t.elems);
      Meaning(lib, t) == if vs.Failure? then Failure(vs.error)
                         else Success(if t.ListExt? && t.tail != 'j' as int then Null else Arr(vs.value))
  {
    hide MeaningAll;
  }

  lemma TupleRead(lib: Runtime, d: ByteString, pos: nat, k: nat, n: nat)
    requires pos < |d| && ((d[pos] == 'h' as int && k == 1) || (d[pos] == 'i' as int && k == 4))
    requires Read(d, pos + 1, k) == Ok(n, pos + 1 + k)
    ensures var r := ParseAll(lib, d, pos + 1 + k, n);
      Parse(lib, d, pos) == if r.Ok? then Ok(Arr(r.value), r.next) else Err(r.error)
  {
    hide Read, ParseAll;
  }

  lemma ListIs(lib: Runtime, d: ByteString, pos: nat, n: nat)
    requires pos < |d| && d[pos] == 'l' as int && Read(d, pos + 1, 4) == Ok(n, pos + 5)
    requires var r := ParseAll(lib, d, pos + 5, n); r.Ok? ==> r.next < |d|
    ensures var r := ParseAll(lib, d, pos + 5, n);
      Parse(lib, d, pos) == if r.Ok? then Ok(if d[r.next] == 'j' as int then Arr(r.value) else Null, r.next + 1) else Err(r.error)
  {
    hide Read, ParseAll;
    var r := ParseAll(lib, d, pos + 5, n);
    if r.Ok? {
      ReadByte(d, r.next);
    }
  }

  lemma MapIs(lib: Runtime, d: ByteString, pos: nat, n: nat)
    requires pos < |d| && d[pos] == 't' as int && Read(d, pos + 1, 4) == Ok(n, pos + 5)
    ensures var r := ParseMembers(lib, d, pos + 5, n, []);
      Parse(lib, d, pos) == if r.Ok? then Ok(if n == 0 then Null else Obj(r.value), r.next) else Err(r.error)
  {
    hide Read, ParseMembers;
  }

  /** Where the parts of a counted value stand. */
  lemma TupleLayout(d: ByteString, pos: nat, t: Term) returns (k: nat)
    requires (t.SmallTupleExt? || t.LargeTupleExt? || t.ListExt?) && Stands(d, pos, t)
    ensures pos < |d| && k == (if t.SmallTupleExt? then 1 else 4)
    ensures d[pos] == if t.SmallTupleExt? then 'h' as int else if t.LargeTupleExt? then 'i' as int else 'l' as int
    ensures Read(d, pos + 1, k) == Ok(|t.elems|, pos + 1 + k)
    ensures At(d, pos + 1 + k, AllBytes(t.elems)) && FitAll(t.elems, |d| - (pos + 1 + k))
    ensures var end := pos + 1 + k + |AllBytes(t.elems)|;
      if t.ListExt? then end < |d| && d[end] == t.tail && pos + |TermBytes(t)| == end + 1 else pos + |TermBytes(t)| == end
  {
    hide At, Big, FromBig, Pow256, Read, AllBytes, FitAll, TermBytes, Fits;
    k := if t.SmallTupleExt? then 1 else 4;
    WidthBounds();
    var tag, end := TupleBytes(t, |d| - pos);
    var es := t.elems;
    Tagged(d, pos, tag, Big(|es|, k) + (AllBytes(es) + end));
    FieldRead(d, pos + 1, |es|, k, AllBytes(es) + end);
    AtSplit(d, pos + 1 + k, AllBytes(es), end);
    TailThere(d, pos + 1 + k + |AllBytes(es)|, end);
  }

  lemma TupleBytes(t: Term, room: int) returns (tag: byte, end: ByteString)
    requires (t.SmallTupleExt? || t.LargeTupleExt? || t.ListExt?) && Fits(t, room)
    ensures var k := if t.SmallTupleExt? then 1 else 4;
      && TermBytes(t) == [tag] + (Big(|t.elems|, k) + (AllBytes(t.elems) + end))
      && FitAll(t.elems, room - 1 - k) && |t.elems| < if k == 1 then 0x100 else 0x1_0000_0000
    ensures tag == if t.SmallTupleExt? then 'h' as int else if t.LargeTupleExt? then 'i' as int else 'l' as int
    ensures end == if t.ListExt? then [t.tail] else []
  {
    hide Big, AllBytes, FitAll;
    tag := if t.SmallTupleExt? then 'h' as int else if t.LargeTupleExt? then 'i' as int else 'l' as int;
    end := if t.ListExt? then [t.tail] else [];
    assert AllBytes(t.elems) + [] == AllBytes(t.elems);
  }

  lemma TailThere(d: ByteString, pos: nat, end: ByteString)
    requires At(d, pos, end) && |end| <= 1
    ensures end != [] ==> pos < |d| && d[pos] == end[0]
  {
    if end != [] {
      assert d[pos..pos + 1][0] == d[pos];
    }
  }

  lemma {:induction false} TupleTermRead(lib: Runtime, d: ByteString, pos: nat, t: Term)
    requires (t.SmallTupleExt? || t.LargeTupleExt? || t.ListExt?) && Stands(d, pos, t)
    ensures Reads(lib, d, pos, t)
    decreases t, 0
  {
    hide Parse, ParseAll, Read, TermBytes, AllBytes, FitAll, Meaning, MeaningAll, At, Stands, Fits;
    var k := TupleLayout(d, pos, t);
    TupleMeans(lib, t);
    AllRead(lib, d, pos + 1 + k, t.elems);
    if t.ListExt? {
      ListIs(lib, d, pos, |t.elems|);
    } else {
      TupleRead(lib, d, pos, k, |t.elems|);
    }
  }

  lemma {:induction false} AllRead(lib: Runtime, d: ByteString, pos: nat, es: seq<Term>)
    requires At(d, pos, AllBytes(es)) && FitAll(es, |d| - pos)
    ensures ParseAll(lib, d, pos, |es|) == Outcome(MeaningAll(lib, es), pos + |AllBytes(es)|)
    decreases es, 1
  {
    hide Parse, TermBytes, Fits, Meaning;
    if es != [] {
      AtSplit(d, pos, TermBytes(es[0]), AllBytes(es[1..]));
      TermRead(lib, d, pos, es[0]);
      if Meaning(lib, es[0]).Success? {
        AllRead(lib, d, pos + |TermBytes(es[0])|, es[1..]);
      }
    }
  }

  lemma {:induction false} MapTermRead(lib: Runtime, d: ByteString, pos: nat, t: Term)
    requires t.MapExt? && Stands(d, pos, t)
    ensures Reads(lib, d, pos, t)
    decreases t, 0
  {
    hide Parse, ParseMembers, Big, FromBig, Pow256, Read, Gathered;
    WidthBounds();
    Tagged(d, pos, 't' as int, Big(|t.entries|, 4) + AllEntryBytes(t.entries));
    FieldRead(d, pos + 1, |t.entries|, 4, AllEntryBytes(t.entries));
    EntriesRead(lib, d, pos + 5, t.entries, []);
    MapIs(lib, d, pos, |t.entries|);
  }

  function Joined(acc: seq<Member>, m: Meant<seq<Member>>): Meant<seq<Member>> {
    match m
    case Success(pairs) => Success(Gathered(acc, pairs))
    case Failure(error) => Failure(error)
  }

  lemma {:induction false} EntriesRead(lib: Runtime, d: ByteString, pos: nat, entries: seq<Entry>, acc: seq<Member>)
    requires At(d, pos, AllEntryBytes(entries)) && FitEntries(entries, |d| - pos)
    ensures ParseMembers(lib, d, pos, |entries|, acc) == Outcome(Joined(acc, MeaningPairs(lib, entries)), pos + |AllEntryBytes(entries)|)
    decreases entries, 1
  {
    hide ParseMembers, MeaningPair, EntryBytes, FitsEntry, Emplace;
    if entries == [] {
      NoMembers(lib, d, pos, acc);
    } else {
      AtSplit(d, pos, EntryBytes(entries[0]), AllEntryBytes(entries[1..]));
      EntryRead(lib, d, pos, |entries|, entries[0], acc);
      var first := MeaningPair(lib, entries[0]);
      if first.Success? {
        var Member(key, value) := first.value;
        EntriesRead(lib, d, pos + |EntryBytes(entries[0])|, entries[1..], Emplace(acc, key, value));
        if MeaningPairs(lib, entries[1..]).Success? {
          MorePairs(acc, first.value, MeaningPairs(lib, entries[1..]));
        }
      }
    }
  }

  lemma NoMembers(lib: Runtime, d: ByteString, pos: nat, acc: seq<Member>)
    requires pos <= |d|
    ensures ParseMembers(lib, d, pos, 0, acc) == Ok(acc, pos)
  {
  }

  lemma MorePairs(acc: seq<Member>, pair: Member, m: Meant<seq<Member>>)
    requires m.Success?
    ensures Joined(Emplace(acc, pair.key, pair.value), m) == Success(Gathered(acc, [pair] + m.value))
  {
    assert ([pair] + m.value)[1..] == m.value;
  }

  lemma {:induction false} EntryRead(lib: Runtime, d: ByteString, pos: nat, n: nat, e: Entry, acc: seq<Member>)
    requires n > 0 && At(d, pos, EntryBytes(e)) && FitsEntry(e, |d| - pos)
    ensures var m := MeaningPair(lib, e);
      ParseMembers(lib, d, pos, n, acc) ==
        if m.Failure? then Err(m.error)
        else ParseMembers(lib, d, pos + |EntryBytes(e)|, n - 1, Emplace(acc, m.value.key, m.value.value))
    decreases e, 2
  {
    hide Parse, TermBytes, Fits, Meaning, Emplace, Decimal;
    AtSplit(d, pos, TermBytes(e.key), TermBytes(e.value));
    TermRead(lib, d, pos, e.key);
    if Meaning(lib, e.key).Success? {
      TermRead(lib, d, pos + |TermBytes(e.key)|, e.value);
    }
  }

  // ---------- References, ports, processes and exports ----------

  lemma Dispatch(lib: Runtime, d: ByteString, pos: nat)
    requires pos < |d|
    ensures d[pos] == 'e' as int ==> Parse(lib, d, pos) == ParseReference(lib, d, pos + 1)
    ensures d[pos] == 'r' as int ==> Parse(lib, d, pos) == ParseNewReference(lib, d, pos + 1)
    ensures d[pos] == 'f' as int ==> Parse(lib, d, pos) == ParsePort(lib, d, pos + 1)
    ensures d[pos] == 'g' as int ==> Parse(lib, d, pos) == ParsePid(lib, d, pos + 1)
    ensures d[pos] == 'q' as int ==> Parse(lib, d, pos) == ParseExport(lib, d, pos + 1)
  {
    hide ParseReference, ParseNewReference, ParsePort, ParsePid, ParseExport, Read, ParseAll, ParseMembers, ParseScalar;
  }

  lemma NodeMeaning(lib: Runtime, t: Term)
    requires t.ReferenceExt? || t.PortExt? || t.NewReferenceExt? || t.PidExt?
    ensures var v := Meaning(lib, t.node); Meaning(lib, t) == if v.Failure? then Failure(v.error) else Success(NodeMeans(t, v.value))
  {
    hide NodeMeans;
  }

  lemma ExportMeans(lib: Runtime, t: Term)
    requires t.ExportExt?
    ensures var m, f, a := Meaning(lib, t.module_), Meaning(lib, t.fun), Meaning(lib, t.arity);
      Meaning(lib, t) == if m.Failure? then Failure(m.error) else if f.Failure? then Failure(f.error) else if a.Failure? then Failure(a.error)
                         else Success(Obj([Member(ARITY, a.value), Member(FUN, f.value), Member(MOD, m.value)]))
  {
  }

  lemma FieldNames()
    ensures Ascii("creation") == CREATION && Ascii("id") == ID && Ascii("node") == NODE && Ascii("serial") == SERIAL
    ensures Ascii("arity") == ARITY && Ascii("fun") == FUN && Ascii("mod") == MOD
  {
  }

  /** Where the parts of a reference or a port stand. */
  lemma ReferenceLayout(d: ByteString, pos: nat, t: Term) returns (p: nat)
    requires (t.ReferenceExt? || t.PortExt?) && Stands(d, pos, t)
    ensures pos < |d| && d[pos] == (if t.ReferenceExt? then 'e' as int else 'f' as int) && Stands(d, pos + 1, t.node)
    ensures p == pos + 1 + |TermBytes(t.node)| && pos + |TermBytes(t)| == p + 5
    ensures Read(d, p, 4) == Ok(t.id, p + 4) && Read(d, p + 4, 1) == Ok(t.creation, p + 5)
  {
    hide Big, FromBig, Pow256, Read;
    WidthBounds();
    var node := TermBytes(t.node);
    p := pos + 1 + |node|;
    Tagged(d, pos, TermBytes(t)[0], node + (Big(t.id, 4) + Big(t.creation, 1)));
    AtSplit(d, pos + 1, node, Big(t.id, 4) + Big(t.creation, 1));
    FieldRead(d, p, t.id, 4, Big(t.creation, 1));
    ReadBig(d, p + 4, t.creation, 1);
  }

  lemma {:induction false} ReferenceRead(lib: Runtime, d: ByteString, pos: nat, t: Term)
    requires (t.ReferenceExt? || t.PortExt?) && Stands(d, pos, t)
    ensures Reads(lib, d, pos, t)
    decreases t, 0
  {
    hide Parse, Read, Ascii, TermBytes, Stands, ToInt32, Meaning, Fits;
    var p := ReferenceLayout(d, pos, t);
    NodeMeaning(lib, t);
    TermRead(lib, d, pos + 1, t.node);
    Dispatch(lib, d, pos);
    FieldNames();
    if t.ReferenceExt? {
      assert ToInt32(t.id) == Signed(t.id) by { SignedIs(d, p, t.id); }
    }
  }

  lemma SignedIs(d: ByteString, p: nat, n: nat)
    requires Read(d, p, 4) == Ok(n, p + 4)
    ensures ToInt32(n) == Signed(n)
  {
    WidthBounds();
  }

  lemma PidLayout(d: ByteString, pos: nat, t: Term) returns (p: nat)
    requires t.PidExt? && Stands(d, pos, t)
    ensures pos < |d| && d[pos] == 'g' as int && Stands(d, pos + 1, t.node)
    ensures p == pos + 1 + |TermBytes(t.node)| && pos + |TermBytes(t)| == p + 9
    ensures Read(d, p, 4) == Ok(t.id, p + 4) && Read(d, p + 4, 4) == Ok(t.serial, p + 8) && Read(d, p + 8, 1) == Ok(t.creation, p + 9)
  {
    hide Big, FromBig, Pow256, Read;
    WidthBounds();
    var node, rest := TermBytes(t.node), Big(t.serial, 4) + Big(t.creation, 1);
    p := pos + 1 + |node|;
    Tagged(d, pos, 'g' as int, node + (Big(t.id, 4) + rest));
    AtSplit(d, pos + 1, node, Big(t.id, 4) + rest);
    FieldRead(d, p, t.id, 4, rest);
    FieldRead(d, p + 4, t.serial, 4, Big(t.creation, 1));
    ReadBig(d, p + 8, t.creation, 1);
  }

  lemma {:induction false} PidRead(lib: Runtime, d: ByteString, pos: nat, t: Term)
    requires t.PidExt? && Stands(d, pos, t)
    ensures Reads(lib, d, pos, t)
    decreases t, 0
  {
    hide Parse, Read, Ascii, TermBytes, Stands, Meaning, Fits;
    var p := PidLayout(d, pos, t);
    NodeMeaning(lib, t);
    TermRead(lib, d, pos + 1, t.node);
    Dispatch(lib, d, pos);
    FieldNames();
  }

  lemma NewReferenceLayout(d: ByteString, pos: nat, t: Term) returns (p: nat)
    requires t.NewReferenceExt? && Stands(d, pos, t)
    ensures pos < |d| && d[pos] == 'r' as int && Stands(d, pos + 3, t.node)
    ensures p == pos + 3 + |TermBytes(t.node)| && pos + |TermBytes(t)| == p + 1 + 4 * |t.ids|
    ensures Read(d, pos + 1, 2) == Ok(|t.ids|, pos + 3) && Read(d, p, 1) == Ok(t.creation, p + 1)
    ensures p + 1 + 4 * |t.ids| <= |d| && Words(d, p + 1, |t.ids|) == SignedAll(t.ids)
  {
    hide Big, FromBig, Pow256, Read, Words, WordBytes;
    WidthBounds();
    var node, rest := TermBytes(t.node), Big(t.creation, 1) + WordBytes(t.ids);
    p := pos + 3 + |node|;
    Tagged(d, pos, 'r' as int, Big(|t.ids|, 2) + (node + rest));
    FieldRead(d, pos + 1, |t.ids|, 2, node + rest);
    AtSplit(d, pos + 3, node, rest);
    FieldRead(d, p, t.creation, 1, WordBytes(t.ids));
    WordsRead(d, p + 1, t.ids);
  }

  lemma {:induction false} NewReferenceRead(lib: Runtime, d: ByteString, pos: nat, t: Term)
    requires t.NewReferenceExt? && Stands(d, pos, t)
    ensures Reads(lib, d, pos, t)
    decreases t, 0
  {
    hide Parse, Read, Ascii, TermBytes, Stands, Words, SignedAll, Meaning, Fits;
    var p := NewReferenceLayout(d, pos, t);
    NodeMeaning(lib, t);
    TermRead(lib, d, pos + 3, t.node);
    Dispatch(lib, d, pos);
    FieldNames();
  }

  lemma {:induction false} WordsRead(d: ByteString, pos: nat, ids: seq<nat>)
    requires At(d, pos, WordBytes(ids)) && forall i :: 0 <= i < |ids| ==> ids[i] < 0x1_0000_0000
    ensures Words(d, pos, |ids|) == SignedAll(ids)
    decreases |ids|
  {
    hide Big, FromBig, Pow256;
    if ids != [] {
      AtSplit(d, pos, Big(ids[0], 4), WordBytes(ids[1..]));
      WordsRead(d, pos + 4, ids[1..]);
      WidthBounds();
      FromBigOfBig(ids[0], 4);
      assert ToInt32(ids[0]) == Signed(ids[0]);
      WordsNext(d, pos, |ids|);
    }
  }

  lemma WordsNext(d: ByteString, pos: nat, len: nat)
    requires len > 0 && pos + 4 * len <= |d|
    ensures Words(d, pos, len) == [Int(ToInt32(FromBig(d[pos..pos + 4])))] + Words(d, pos + 4, len - 1)
  {
    hide FromBig, ToInt32;
  }

  lemma ExportLayout(d: ByteString, pos: nat, t: Term) returns (p: nat, q: nat)
    requires t.ExportExt? && Stands(d, pos, t)
    ensures pos < |d| && d[pos] == 'q' as int
    ensures p == pos + 1 + |TermBytes(t.module_)| && q == p + |TermBytes(t.fun)| && pos + |TermBytes(t)| == q + |TermBytes(t.arity)|
    ensures Stands(d, pos + 1, t.module_) && Stands(d, p, t.fun) && Stands(d, q, t.arity)
  {
    hide At, Big;
    var m, f, a := TermBytes(t.module_), TermBytes(t.fun), TermBytes(t.arity);
    p, q := pos + 1 + |m|, pos + 1 + |m| + |f|;
    Tagged(d, pos, 'q' as int, m + (f + a));
    AtSplit(d, pos + 1, m, f + a);
    AtSplit(d, p, f, a);
  }

  lemma {:induction false} ExportRead(lib: Runtime, d: ByteString, pos: nat, t: Term)
    requires t.ExportExt? && Stands(d, pos, t)
    ensures Reads(lib, d, pos, t)
    decreases t, 0
  {
    hide Parse, Ascii, TermBytes, Stands, Meaning, Fits;
    var p, q := ExportLayout(d, pos, t);
    ExportMeans(lib, t);
    TermRead(lib, d, pos + 1, t.module_);
    TermRead(lib, d, p, t.fun);
    TermRead(lib, d, q, t.arity);
    Dispatch(lib, d, pos);
    FieldNames();
  }

  /** Whatever comes before and behind it, a term is read as what it means, and just its bytes are consumed. */
  lemma {:induction false} TermRead(lib: Runtime, d: ByteString, pos: nat, t: Term)
    requires Stands(d, pos, t)
    ensures Parse(lib, d, pos) == Outcome(Meaning(lib, t), pos + |TermBytes(t)|)
    decreases t, 1
  {
    hide Stands, Outcome, Meaning, Parse, TermBytes;
    match t
    case SmallTupleExt(_) => TupleTermRead(lib, d, pos, t);
    case LargeTupleExt(_) => TupleTermRead(lib, d, pos, t);
    case ListExt(_, _) => TupleTermRead(lib, d, pos, t);
    case MapExt(_) => MapTermRead(lib, d, pos, t);
    case ReferenceExt(_, _, _) => ReferenceRead(lib, d, pos, t);
    case NewReferenceExt(_, _, _) => NewReferenceRead(lib, d, pos, t);
    case PortExt(_, _, _) => ReferenceRead(lib, d, pos, t);
    case PidExt(_, _, _, _) => PidRead(lib, d, pos, t);
    case ExportExt(_, _, _) => ExportRead(lib, d, pos, t);
    case _ => SingleRead(lib, d, pos, t);
  }
}
