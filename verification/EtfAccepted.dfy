/**
 What the decoder makes of any bytes at all: it accepts just what begins with a term that has a
 meaning. Also which term the encoder writes, and what the members of a decoded object are.
 */
module EtfAccepted {
  import opened Bytes
  import opened EtfFormat
  import opened EtfRoundTrip
  import opened EtfTerms
  import opened Sequences

  // ---------- What is accepted ----------

  lemma TagWritten(d: ByteString, pos: nat, rest: ByteString)
    requires pos < |d| && At(d, pos + 1, rest)
    ensures At(d, pos, [d[pos]] + rest)
  {
    AtSplit(d, pos, [d[pos]], rest);
  }

  lemma FieldWritten(d: ByteString, pos: nat, k: nat, rest: ByteString)
    requires Read(d, pos, k).Ok? && At(d, pos + k, rest)
    ensures At(d, pos, Big(Read(d, pos, k).value, k) + rest)
  {
    hide Big, FromBig, Pow256;
    BigOfFromBig(d[pos..pos + k]);
    AtSplit(d, pos, Big(Read(d, pos, k).value, k), rest);
  }

  lemma LastField(d: ByteString, pos: nat, k: nat)
    requires Read(d, pos, k).Ok?
    ensures At(d, pos, Big(Read(d, pos, k).value, k))
  {
    hide Big, FromBig, Pow256;
    BigOfFromBig(d[pos..pos + k]);
  }

  /** The term written by these bytes. */
  predicate Written(d: ByteString, pos: nat, t: Term, next: nat) {
    Stands(d, pos, t) && pos + |TermBytes(t)| == next
  }

  lemma AtomWritten(d: ByteString, pos: nat) returns (t: Term)
    requires pos < |d| && (d[pos] == 'd' as int || d[pos] == 's' as int)
    requires ReadAtom(d, pos + 1, if d[pos] == 'd' as int then 2 else 1).Ok?
    ensures Written(d, pos, t, ReadAtom(d, pos + 1, if d[pos] == 'd' as int then 2 else 1).next)
  {
    hide Big, FromBig, Pow256, AtomValue, Read, Written;
    WidthBounds();
    var k := if d[pos] == 'd' as int then 2 else 1;
    var n, p := Read(d, pos + 1, k).value, pos + 1 + k;
    if p + n <= |d| {
      FieldWritten(d, pos + 1, k, d[p..p + n]);
      TagWritten(d, pos, Big(n, k) + d[p..p + n]);
      t := WholeAtom(d, pos, k, d[p..p + n]);
    } else {
      LastField(d, pos + 1, k);
      TagWritten(d, pos, Big(n, k));
      t := CutAtomAt(d, pos, k, n);
    }
  }

  lemma WholeAtom(d: ByteString, pos: nat, k: nat, name: ByteString) returns (t: Term)
    requires pos < |d| && ((d[pos] == 'd' as int && k == 2) || (d[pos] == 's' as int && k == 1))
    requires |name| < Pow256(k) && At(d, pos, [d[pos]] + (Big(|name|, k) + name))
    ensures Written(d, pos, t, pos + 1 + k + |name|)
  {
    hide Big, Pow256;
    WidthBounds();
    t := if k == 2 then AtomExt(name) else SmallAtomExt(name);
  }

  lemma CutAtomAt(d: ByteString, pos: nat, k: nat, n: nat) returns (t: Term)
    requires pos < |d| && ((d[pos] == 'd' as int && k == 2) || (d[pos] == 's' as int && k == 1))
    requires n < Pow256(k) && pos + 1 + k + n > |d| && At(d, pos, [d[pos]] + Big(n, k))
    ensures Written(d, pos, t, pos + 1 + k)
  {
    hide Big, Pow256;
    WidthBounds();
    t := if k == 2 then CutAtom(n) else CutSmallAtom(n);
  }

  lemma BinaryWritten(d: ByteString, pos: nat) returns (t: Term)
    requires pos < |d| && d[pos] == 'm' as int && ReadBinary(d, pos + 1).Ok?
    ensures Written(d, pos, t, ReadBinary(d, pos + 1).next)
  {
    hide Big, FromBig, Pow256, Read;
    WidthBounds();
    var n, p := Read(d, pos + 1, 4).value, pos + 5;
    if p + n <= |d| {
      t := BinaryExt(d[p..p + n]);
      FieldWritten(d, pos + 1, 4, d[p..p + n]);
      TagWritten(d, pos, Big(n, 4) + d[p..p + n]);
    } else {
      t := CutBinary(n);
      LastField(d, pos + 1, 4);
      TagWritten(d, pos, Big(n, 4));
    }
  }

  lemma BigWritten(d: ByteString, pos: nat) returns (t: Term)
    requires pos < |d| && (d[pos] == 'n' as int || d[pos] == 'o' as int)
    requires ReadBigInteger(d, pos + 1, if d[pos] == 'n' as int then 1 else 4).Ok?
    ensures Written(d, pos, t, ReadBigInteger(d, pos + 1, if d[pos] == 'n' as int then 1 else 4).next)
  {
    hide Big, FromBig, Pow256, FromLittle, BigIntegerText, Read;
    WidthBounds();
    var k := if d[pos] == 'n' as int then 1 else 4;
    var n, p := Read(d, pos + 1, k).value, pos + 2 + k;
    var digits := d[p..p + n];
    ReadByte(d, p - 1);
    t := if k == 1 then SmallBigExt(d[p - 1], digits) else LargeBigExt(d[p - 1], digits);
    TagWritten(d, p - 1, digits);
    FieldWritten(d, pos + 1, k, [d[p - 1]] + digits);
    TagWritten(d, pos, Big(n, k) + ([d[p - 1]] + digits));
  }

  lemma OctetsWritten(d: ByteString, pos: nat) returns (t: Term)
    requires pos < |d| && d[pos] == 'k' as int && ReadStringList(d, pos + 1).Ok?
    ensures Written(d, pos, t, ReadStringList(d, pos + 1).next)
  {
    hide Big, FromBig, Pow256, Read;
    WidthBounds();
    var n, p := Read(d, pos + 1, 2).value, pos + 3;
    t := StringExt(d[p..p + n]);
    FieldWritten(d, pos + 1, 2, d[p..p + n]);
    TagWritten(d, pos, Big(n, 2) + d[p..p + n]);
  }

  lemma NumberWritten(lib: Runtime, d: ByteString, pos: nat) returns (t: Term)
    requires pos < |d| && d[pos] in ['a' as int, 'b' as int, 'c' as int, 'F' as int, 'j' as int]
    requires ParseScalar(lib, d, pos + 1, d[pos]).Ok?
    ensures Written(d, pos, t, ParseScalar(lib, d, pos + 1, d[pos]).next)
  {
    hide Big, FromBig, Pow256, Read;
    WidthBounds();
    if d[pos] == 'j' as int {
      t := NilExt;
    } else if d[pos] == 'c' as int {
      t := if pos + 32 <= |d| then FloatExt(d[pos + 1..pos + 32]) else CutFloat;
      TagWritten(d, pos, if pos + 32 <= |d| then d[pos + 1..pos + 32] else []);
    } else {
      var k := if d[pos] == 'a' as int then 1 else if d[pos] == 'b' as int then 4 else 8;
      var n := Read(d, pos + 1, k).value;
      t := if k == 1 then SmallIntegerExt(n) else if k == 4 then IntegerExt(n) else NewFloatExt(n);
      LastField(d, pos + 1, k);
      TagWritten(d, pos, Big(n, k));
    }
  }

  lemma SingleWritten(lib: Runtime, d: ByteString, pos: nat) returns (t: Term)
    requires pos < |d| && ParseScalar(lib, d, pos + 1, d[pos]).Ok?
    ensures Written(d, pos, t, ParseScalar(lib, d, pos + 1, d[pos]).next)
  {
    hide Written, ReadAtom, ReadBinary, ReadBigInteger, ReadStringList, Read, ReadFloatText;
    if d[pos] == 'd' as int || d[pos] == 's' as int {
      t := AtomWritten(d, pos);
    } else if d[pos] == 'm' as int {
      t := BinaryWritten(d, pos);
    } else if d[pos] == 'n' as int || d[pos] == 'o' as int {
      t := BigWritten(d, pos);
    } else if d[pos] == 'k' as int {
      t := OctetsWritten(d, pos);
    } else {
      t := NumberWritten(lib, d, pos);
    }
  }

  lemma CountedNeeds(lib: Runtime, d: ByteString, pos: nat) returns (k: nat)
    requires pos < |d| && d[pos] in ['h' as int, 'i' as int, 'l' as int] && Parse(lib, d, pos).Ok?
    ensures k == (if d[pos] == 'h' as int then 1 else 4) && Read(d, pos + 1, k).Ok?
    ensures var r := ParseAll(lib, d, pos + 1 + k, Read(d, pos + 1, k).value);
      && r.Ok?
      && (if d[pos] == 'l' as int then r.next < |d| && Parse(lib, d, pos).next == r.next + 1 else Parse(lib, d, pos).next == r.next)
  {
    hide Pow256, FromBig, ParseAll;
    k := if d[pos] == 'h' as int then 1 else 4;
  }

  lemma {:induction false} TupleWritten(lib: Runtime, d: ByteString, pos: nat) returns (t: Term)
    requires pos < |d| && d[pos] in ['h' as int, 'i' as int, 'l' as int] && Parse(lib, d, pos).Ok?
    ensures Written(d, pos, t, Parse(lib, d, pos).next)
    decreases |d| - pos, 1
  {
    hide Big, FromBig, Pow256, Read, Parse, ParseAll, AllBytes, FitAll, At;
    WidthBounds();
    var k := CountedNeeds(lib, d, pos);
    var n := Read(d, pos + 1, k).value;
    var es := AllWritten(lib, d, pos + 1 + k, n);
    var end := pos + 1 + k + |AllBytes(es)|;
    var tail := if d[pos] == 'l' as int then [d[end]] else [];
    assert At(d, end, tail) by { OneByte(d, end, tail); }
    AtSplit(d, pos + 1 + k, AllBytes(es), tail);
    FieldWritten(d, pos + 1, k, AllBytes(es) + tail);
    TagWritten(d, pos, Big(n, k) + (AllBytes(es) + tail));
    assert AllBytes(es) + [] == AllBytes(es);
    t := if d[pos] == 'h' as int then SmallTupleExt(es) else if d[pos] == 'i' as int then LargeTupleExt(es) else ListExt(es, d[end]);
  }

  lemma OneByte(d: ByteString, pos: nat, s: ByteString)
    requires pos <= |d| && (s == [] || (pos < |d| && s == [d[pos]]))
    ensures At(d, pos, s)
  {
  }

  lemma {:induction false} AllWritten(lib: Runtime, d: ByteString, pos: nat, n: nat) returns (es: seq<Term>)
    requires pos <= |d| && ParseAll(lib, d, pos, n).Ok?
    ensures |es| == n && At(d, pos, AllBytes(es)) && FitAll(es, |d| - pos)
    ensures pos + |AllBytes(es)| == ParseAll(lib, d, pos, n).next
    decreases |d| - pos, 3, n
  {
    hide Parse, TermBytes, Fits;
    if n == 0 {
      es := [];
    } else {
      var t := TermWritten(lib, d, pos);
      var p := Parse(lib, d, pos).next;
      var rest := AllWritten(lib, d, p, n - 1);
      AtSplit(d, pos, TermBytes(t), AllBytes(rest));
      es := [t] + rest;
      assert es[1..] == rest;
    }
  }

  lemma MapNeeds(lib: Runtime, d: ByteString, pos: nat)
    requires pos < |d| && d[pos] == 't' as int && Parse(lib, d, pos).Ok?
    ensures Read(d, pos + 1, 4).Ok?
    ensures var r := ParseMembers(lib, d, pos + 5, Read(d, pos + 1, 4).value, []); r.Ok? && Parse(lib, d, pos).next == r.next
  {
    hide Pow256, FromBig, ParseMembers;
  }

  lemma {:induction false} MapWritten(lib: Runtime, d: ByteString, pos: nat) returns (t: Term)
    requires pos < |d| && d[pos] == 't' as int && Parse(lib, d, pos).Ok?
    ensures Written(d, pos, t, Parse(lib, d, pos).next)
    decreases |d| - pos, 1
  {
    hide Big, FromBig, Pow256, Read, Parse, ParseMembers, AllEntryBytes, FitEntries, At;
    WidthBounds();
    MapNeeds(lib, d, pos);
    var n := Read(d, pos + 1, 4).value;
    var entries := EntriesWritten(lib, d, pos + 5, n, []);
    FieldWritten(d, pos + 1, 4, AllEntryBytes(entries));
    TagWritten(d, pos, Big(n, 4) + AllEntryBytes(entries));
    t := MapExt(entries);
  }

  lemma MemberNeeds(lib: Runtime, d: ByteString, pos: nat, n: nat, acc: seq<Member>) returns (p: nat, q: nat, more: seq<Member>)
    requires n > 0 && pos <= |d| && ParseMembers(lib, d, pos, n, acc).Ok?
    ensures Parse(lib, d, pos).Ok? && p == Parse(lib, d, pos).next && Parse(lib, d, p).Ok? && q == Parse(lib, d, p).next
    ensures ParseMembers(lib, d, q, n - 1, more) == ParseMembers(lib, d, pos, n, acc)
  {
    hide Parse, KeyText, Emplace;
    p := Parse(lib, d, pos).next;
    q := Parse(lib, d, p).next;
    more := Emplace(acc, KeyText(lib, Parse(lib, d, pos).value).value, Parse(lib, d, p).value);
  }

  lemma {:induction false} EntriesWritten(lib: Runtime, d: ByteString, pos: nat, n: nat, acc: seq<Member>) returns (entries: seq<Entry>)
    requires pos <= |d| && ParseMembers(lib, d, pos, n, acc).Ok?
    ensures |entries| == n && At(d, pos, AllEntryBytes(entries)) && FitEntries(entries, |d| - pos)
    ensures pos + |AllEntryBytes(entries)| == ParseMembers(lib, d, pos, n, acc).next
    decreases |d| - pos, 3, n
  {
    hide Parse, TermBytes, Fits, ParseMembers;
    if n == 0 {
      entries := [];
      NoMembers(lib, d, pos, acc);
    } else {
      var p, q, more := MemberNeeds(lib, d, pos, n, acc);
      var key := TermWritten(lib, d, pos);
      var value := TermWritten(lib, d, p);
      var rest := EntriesWritten(lib, d, q, n - 1, more);
      AtSplit(d, pos, TermBytes(key), TermBytes(value));
      AtSplit(d, pos, EntryBytes(Entry(key, value)), AllEntryBytes(rest));
      entries := [Entry(key, value)] + rest;
      assert entries[1..] == rest;
    }
  }

  lemma {:induction false} ReferenceWritten(lib: Runtime, d: ByteString, pos: nat) returns (t: Term)
    requires pos < |d| && d[pos] in ['e' as int, 'f' as int] && Parse(lib, d, pos).Ok?
    ensures Written(d, pos, t, Parse(lib, d, pos).next)
    decreases |d| - pos, 1
  {
    hide Big, FromBig, Pow256, Read, Parse, At, ToInt32;
    WidthBounds();
    Dispatch(lib, d, pos);
    var node := TermWritten(lib, d, pos + 1);
    var p := Parse(lib, d, pos + 1).next;
    var id, creation := Read(d, p, 4).value, Read(d, p + 4, 1).value;
    t := if d[pos] == 'e' as int then ReferenceExt(node, id, creation) else PortExt(node, id, creation);
    LastField(d, p + 4, 1);
    FieldWritten(d, p, 4, Big(creation, 1));
    AtSplit(d, pos + 1, TermBytes(node), Big(id, 4) + Big(creation, 1));
    TagWritten(d, pos, TermBytes(node) + (Big(id, 4) + Big(creation, 1)));
  }

  lemma {:induction false} PidWritten(lib: Runtime, d: ByteString, pos: nat) returns (t: Term)
    requires pos < |d| && d[pos] == 'g' as int && Parse(lib, d, pos).Ok?
    ensures Written(d, pos, t, Parse(lib, d, pos).next)
    decreases |d| - pos, 1
  {
    hide Big, FromBig, Pow256, Read, Parse, At;
    WidthBounds();
    Dispatch(lib, d, pos);
    var node := TermWritten(lib, d, pos + 1);
    var p := Parse(lib, d, pos + 1).next;
    var id, serial, creation := Read(d, p, 4).value, Read(d, p + 4, 4).value, Read(d, p + 8, 1).value;
    t := PidExt(node, id, serial, creation);
    var rest := Big(serial, 4) + Big(creation, 1);
    LastField(d, p + 8, 1);
    FieldWritten(d, p + 4, 4, Big(creation, 1));
    FieldWritten(d, p, 4, rest);
    AtSplit(d, pos + 1, TermBytes(node), Big(id, 4) + rest);
    TagWritten(d, pos, TermBytes(node) + (Big(id, 4) + rest));
  }

  lemma {:induction false} WordsWritten(d: ByteString, pos: nat, len: nat) returns (ids: seq<nat>)
    requires pos + 4 * len <= |d|
    ensures |ids| == len && At(d, pos, WordBytes(ids)) && forall i :: 0 <= i < len ==> ids[i] < 0x1_0000_0000
    decreases len
  {
    hide Big, FromBig, Pow256;
    if len == 0 {
      ids := [];
    } else {
      WidthBounds();
      var rest := WordsWritten(d, pos + 4, len - 1);
      FieldWritten(d, pos, 4, WordBytes(rest));
      ids := [Read(d, pos, 4).value] + rest;
      assert ids[1..] == rest;
    }
  }

  lemma {:induction false} NewReferenceWritten(lib: Runtime, d: ByteString, pos: nat) returns (t: Term)
    requires pos < |d| && d[pos] == 'r' as int && Parse(lib, d, pos).Ok?
    ensures Written(d, pos, t, Parse(lib, d, pos).next)
    decreases |d| - pos, 1
  {
    hide Big, FromBig, Pow256, Read, Parse, At, Words, WordBytes;
    WidthBounds();
    Dispatch(lib, d, pos);
    var len := Read(d, pos + 1, 2).value;
    var node := TermWritten(lib, d, pos + 3);
    var p := Parse(lib, d, pos + 3).next;
    var creation := Read(d, p, 1).value;
    var ids := WordsWritten(d, p + 1, len);
    t := NewReferenceExt(node, creation, ids);
    var rest := Big(creation, 1) + WordBytes(ids);
    FieldWritten(d, p, 1, WordBytes(ids));
    AtSplit(d, pos + 3, TermBytes(node), rest);
    FieldWritten(d, pos + 1, 2, TermBytes(node) + rest);
    TagWritten(d, pos, Big(len, 2) + (TermBytes(node) + rest));
  }

  lemma {:induction false} ExportWritten(lib: Runtime, d: ByteString, pos: nat) returns (t: Term)
    requires pos < |d| && d[pos] == 'q' as int && Parse(lib, d, pos).Ok?
    ensures Written(d, pos, t, Parse(lib, d, pos).next)
    decreases |d| - pos, 1
  {
    hide Big, Parse, At;
    Dispatch(lib, d, pos);
    var m := TermWritten(lib, d, pos + 1);
    var p := Parse(lib, d, pos + 1).next;
    var f := TermWritten(lib, d, p);
    var q := Parse(lib, d, p).next;
    var a := TermWritten(lib, d, q);
    t := ExportExt(m, f, a);
    AtSplit(d, p, TermBytes(f), TermBytes(a));
    AtSplit(d, pos + 1, TermBytes(m), TermBytes(f) + TermBytes(a));
    TagWritten(d, pos, TermBytes(m) + (TermBytes(f) + TermBytes(a)));
  }

  /** What is read is a term, whose bytes are just what is consumed. */
  lemma {:induction false} TermWritten(lib: Runtime, d: ByteString, pos: nat) returns (t: Term)
    requires Parse(lib, d, pos).Ok?
    ensures Written(d, pos, t, Parse(lib, d, pos).next)
    decreases |d| - pos, 2
  {
    hide Parse, Written, ParseScalar;
    InMessage(lib, d, pos);
    if d[pos] in ['h' as int, 'i' as int, 'l' as int] {
      t := TupleWritten(lib, d, pos);
    } else if d[pos] == 't' as int {
      t := MapWritten(lib, d, pos);
    } else if d[pos] in ['e' as int, 'f' as int] {
      t := ReferenceWritten(lib, d, pos);
    } else if d[pos] == 'g' as int {
      t := PidWritten(lib, d, pos);
    } else if d[pos] == 'r' as int {
      t := NewReferenceWritten(lib, d, pos);
    } else if d[pos] == 'q' as int {
      t := ExportWritten(lib, d, pos);
    } else {
      ScalarTag(lib, d, pos);
      t := SingleWritten(lib, d, pos);
    }
  }

  lemma InMessage(lib: Runtime, d: ByteString, pos: nat)
    requires Parse(lib, d, pos).Ok?
    ensures pos < |d|
  {
  }

  ghost predicate BeginsTerm(lib: Runtime, d: ByteString, pos: nat) {
    exists t :: Stands(d, pos, t) && Meaning(lib, t).Success?
  }

  /** The decoder accepts just the bytes that begin with a term that has a meaning, whatever they are. */
  lemma AcceptsExactly(lib: Runtime, d: ByteString, pos: nat)
    ensures Parse(lib, d, pos).Ok? <==> BeginsTerm(lib, d, pos)
  {
    hide Parse, Meaning, Stands;
    if Parse(lib, d, pos).Ok? {
      var t := TermWritten(lib, d, pos);
      assert Stands(d, pos, t);
      TermRead(lib, d, pos, t);
    }
    if t :| Stands(d, pos, t) && Meaning(lib, t).Success? {
      TermRead(lib, d, pos, t);
    }
  }

  /** No tag but those of the terms is read; a tag past the end, an unknown one and two known but unsupported ones have errors of their own. */
  lemma TagsRefused(lib: Runtime, d: ByteString, pos: nat)
    ensures pos >= |d| ==> Parse(lib, d, pos) == Err(PastEnd)
    ensures pos < |d| && d[pos] == 68 ==> Parse(lib, d, pos) == Err(DistributionHeader)
    ensures pos < |d| && d[pos] == 80 ==> Parse(lib, d, pos) == Err(CompressedTerm)
    ensures pos < |d| && d[pos] !in {68, 70, 80, 97, 98, 99, 100, 101, 102, 103, 104, 105, 106, 107, 108, 109, 110, 111, 113, 114, 115, 116} ==>
      Parse(lib, d, pos) == Err(UnknownType)
  {
    hide Read, ParseAll, ParseMembers, ParseReference, ParseNewReference, ParsePort, ParsePid, ParseExport;
  }

  /** A message is accepted if it begins with version 131 and then such a term. */
  lemma MessageAccepted(lib: Runtime, d: ByteString)
    ensures ParseMessage(lib, d).Ok? <==> d != [] && d[0] == 131 && BeginsTerm(lib, d, 1)
    ensures d == [] ==> ParseMessage(lib, d) == Err(PastEnd)
    ensures d != [] && d[0] != 131 ==> ParseMessage(lib, d) == Err(WrongVersion)
    ensures d != [] && d[0] == 131 ==> ParseMessage(lib, d) == Parse(lib, d, 1)
  {
    hide Parse, BeginsTerm;
    AcceptsExactly(lib, d, 1);
    if d != [] {
      ReadByte(d, 0);
    }
  }

  // ---------- What the encoder writes ----------

  /** A number as a signed one of 64 bits. */
  function Signed64(n: int): int {
    (n + 0x8000_0000_0000_0000) % 0x1_0000_0000_0000_0000 - 0x8000_0000_0000_0000
  }

  /** The term a value without empty arrays is written as. */
  function TermOf(j: Json): Term
    decreases j, 0
  {
    match j
    case Null => SmallAtomExt(['n' as int, 'i' as int, 'l' as int])
    case Bool(b) =>
      SmallAtomExt(if b then ['t' as int, 'r' as int, 'u' as int, 'e' as int]
                   else ['f' as int, 'a' as int, 'l' as int, 's' as int, 'e' as int])
    case Int(n) =>
      if 0 <= Signed64(n) <= 127 then SmallIntegerExt(Signed64(n))
      else if Signed64(n) >= 0xffff_fffe then SmallBigExt(0, Little(Signed64(n)))
      else IntegerExt(n % 0x1_0000_0000)
    case Float(bits) => NewFloatExt(bits)
    case Str(s) => BinaryExt(s)
    case Arr(es) => ListExt(TermsOf(es), 'j' as int)
    case Obj(ms) => MapExt(EntriesOf(ms))
  }

  function TermsOf(es: seq<Json>): (r: seq<Term>)
    ensures |r| == |es|
    decreases es, 1
  {
    if es == [] then [] else [TermOf(es[0])] + TermsOf(es[1..])
  }

  function EntriesOf(ms: seq<Member>): (r: seq<Entry>)
    ensures |r| == |ms|
    decreases ms, 1
  {
    if ms == [] then [] else [Entry(BinaryExt(ms[0].key), TermOf(ms[0].value))] + EntriesOf(ms[1..])
  }

  /** Numbers go in the shortest of three forms, from 2^32 - 2 on the longest, and everything else in one. */
  lemma {:induction false} EncodedAs(j: Json)
    requires Builds(j) && Plain(j)
    ensures Encode(j) == TermBytes(TermOf(j))
    decreases j, 0
  {
    match j
    case Null => AtomEncoded("nil");
    case Bool(b) => AtomEncoded(if b then "true" else "false");
    case Int(n) => NumberEncoded(n);
    case Float(bits) =>
    case Str(s) => BinaryEncoded(s);
    case Arr(es) => ArrayEncoded(es);
    case Obj(ms) => ObjectEncoded(ms);
  }

  lemma AtomEncoded(text: string)
    requires text == "nil" || text == "true" || text == "false"
    ensures SmallAtom(text) == TermBytes(SmallAtomExt(Ascii(text)))
    ensures text == "nil" ==> Ascii(text) == ['n' as int, 'i' as int, 'l' as int]
    ensures text == "true" ==> Ascii(text) == ['t' as int, 'r' as int, 'u' as int, 'e' as int]
    ensures text == "false" ==> Ascii(text) == ['f' as int, 'a' as int, 'l' as int, 's' as int, 'e' as int]
  {
    OneByteField(|text|);
    HeadSplits('s' as int, |text|, Ascii(text));
  }

  lemma OneByteField(n: nat)
    requires n < 256
    ensures Big(n, 1) == [n]
  {
    assert Big(n / 256, 0) == [];
  }

  lemma HeadSplits(tag: byte, n: byte, rest: ByteString)
    ensures [tag, n] + rest == [tag] + ([n] + rest)
  {
  }

  lemma NumberEncoded(n: int)
    ensures EncodeInt(n) == TermBytes(TermOf(Int(n)))
  {
    hide Big, Little, Pow256, ToInt64, Signed64;
    var m := ToInt64(n);
    SameNumber(n);
    if 0 <= m <= 127 {
      OneByteField(m);
    } else if m >= TWO_32 - 2 {
      LittleLength(m, 8);
      WidthBounds();
      OneByteField(|Little(m)|);
      HeaderShape('n' as int, |Little(m)|, 0, Little(m));
    } else {
      SameLowBits(n);
    }
  }

  lemma SameNumber(n: int)
    ensures ToInt64(n) == Signed64(n)
  {
  }

  lemma SameLowBits(n: int)
    ensures ToInt64(n) % TWO_32 == n % TWO_32
  {
    var m := ToInt64(n);
    hide ToInt64;
    var k := (m - n) / TWO_64;
    assert m == n + TWO_32 * (TWO_32 * k);
    WrapMore(n, TWO_32 * k);
  }

  lemma BinaryEncoded(s: ByteString)
    requires |s| < TWO_32
    ensures EncodeString(s) == TermBytes(BinaryExt(s))
  {
    hide Big;
    Append(['m' as int], Big(|s|, 4), s);
  }

  lemma {:induction false} ArrayEncoded(es: seq<Json>)
    requires Builds(Arr(es)) && Plain(Arr(es))
    ensures Encode(Arr(es)) == TermBytes(TermOf(Arr(es)))
    decreases es, 2
  {
    hide Big, EncodeAll, AllBytes, TermsOf;
    AllEncoded(es);
    hide Plain, Builds;
    assert [] + ['l' as int] == ['l' as int];
    Append(['l' as int], Big(|es|, 4), EncodeAll(es));
    Append(['l' as int], Big(|es|, 4) + EncodeAll(es), ['j' as int]);
    Append(Big(|es|, 4), EncodeAll(es), ['j' as int]);
  }

  lemma {:induction false} AllEncoded(es: seq<Json>)
    requires forall e :: e in es ==> Builds(e) && Plain(e)
    ensures EncodeAll(es) == AllBytes(TermsOf(es))
    decreases es, 1
  {
    hide Encode, TermBytes, TermOf, Plain, Builds;
    if es != [] {
      EncodedAs(es[0]);
      AllEncoded(es[1..]);
      assert TermsOf(es)[1..] == TermsOf(es[1..]);
    }
  }

  lemma {:induction false} ObjectEncoded(ms: seq<Member>)
    requires Builds(Obj(ms)) && Plain(Obj(ms))
    ensures Encode(Obj(ms)) == TermBytes(TermOf(Obj(ms)))
    decreases ms, 2
  {
    hide Big, EncodeMembers, AllEntryBytes, EntriesOf;
    MembersEncoded(ms);
    hide Plain, Builds;
    Append(['t' as int], Big(|ms|, 4), EncodeMembers(ms));
  }

  lemma {:induction false} MembersEncoded(ms: seq<Member>)
    requires forall m :: m in ms ==> |m.key| < TWO_32 && Builds(m.value) && Plain(m.value)
    ensures EncodeMembers(ms) == AllEntryBytes(EntriesOf(ms))
    decreases ms, 1
  {
    hide Encode, EncodeString, TermBytes, TermOf, Plain, Builds;
    if ms != [] {
      BinaryEncoded(ms[0].key);
      EncodedAs(ms[0].value);
      MembersEncoded(ms[1..]);
      assert EntriesOf(ms)[1..] == EntriesOf(ms[1..]);
    }
  }

  /** Some array or object of the value, however deep, has 2^32 - 1 entries or more. */
  predicate HoldsTooMany(j: Json) {
    match j
    case Arr(es) => |es| >= 0xffff_ffff || exists i :: 0 <= i < |es| && HoldsTooMany(es[i])
    case Obj(ms) => |ms| >= 0xffff_ffff || exists i :: 0 <= i < |ms| && HoldsTooMany(ms[i].value)
    case _ => false
  }

  /** The encoder refuses just such values. */
  lemma {:induction false} RefusedExactly(j: Json)
    ensures Builds(j) <==> !HoldsTooMany(j)
    decreases j
  {
    match j
    case Arr(es) =>
      forall e | e in es ensures Builds(e) <==> !HoldsTooMany(e) { RefusedExactly(e); }
    case Obj(ms) =>
      forall m | m in ms ensures Builds(m.value) <==> !HoldsTooMany(m.value) { RefusedExactly(m.value); }
    case _ =>
  }

  // ---------- Members of an object ----------

  /** The pair is the first with its key. */
  predicate FirstOfKey(pairs: seq<Member>, m: Member) {
    exists i :: 0 <= i < |pairs| && pairs[i] == m && forall k :: 0 <= k < i ==> pairs[k].key != m.key
  }

  /** One string is before another if it is a proper front of it, or has the lower byte where they first differ. */
  predicate Before(a: ByteString, b: ByteString) {
    exists i :: 0 <= i <= |a| && i < |b| && a[..i] == b[..i] && (i == |a| || a[i] < b[i])
  }

  lemma {:induction false} BeforeIs(a: ByteString, b: ByteString)
    ensures KeyLess(a, b) <==> Before(a, b)
    decreases |b|
  {
    if KeyLess(a, b) {
      if a != [] && a[0] == b[0] {
        BeforeIs(a[1..], b[1..]);
        var i :| 0 <= i <= |a| - 1 && i < |b| - 1 && a[1..][..i] == b[1..][..i] && (i == |a| - 1 || a[1..][i] < b[1..][i]);
        assert a[..i + 1] == [a[0]] + a[1..][..i] && b[..i + 1] == [b[0]] + b[1..][..i];
        assert Before(a, b) by { assert i + 1 == |a| || a[i + 1] < b[i + 1]; }
      } else {
        assert a[..0] == b[..0];
      }
    }
    if i :| 0 <= i <= |a| && i < |b| && a[..i] == b[..i] && (i == |a| || a[i] < b[i]) {
      if i > 0 {
        assert a[..i][0] == a[0] && b[..i][0] == b[0];
        assert a[1..][..i - 1] == a[..i][1..] && b[1..][..i - 1] == b[..i][1..];
        BeforeIs(a[1..], b[1..]);
      }
    }
  }

  lemma {:induction false} KeyOrder(a: ByteString, b: ByteString)
    ensures !KeyLess(a, a) && !(KeyLess(a, b) && KeyLess(b, a))
    ensures KeyLess(a, b) || KeyLess(b, a) || a == b
    decreases |a|
  {
    if a != [] {
      KeyOrder(a[1..], if b == [] then [] else b[1..]);
      if b != [] && a[1..] == b[1..] && a[0] == b[0] {
        assert a == [a[0]] + a[1..] && b == [b[0]] + b[1..];
      }
    }
  }

  lemma {:induction false} KeyLessTransitive(a: ByteString, b: ByteString, c: ByteString)
    requires KeyLess(a, b) && KeyLess(b, c)
    ensures KeyLess(a, c)
    decreases |a|
  {
    if a != [] && a[0] == b[0] == c[0] {
      KeyLessTransitive(a[1..], b[1..], c[1..]);
    }
  }

  predicate HasKey(ms: seq<Member>, key: ByteString) {
    exists i :: 0 <= i < |ms| && ms[i].key == key
  }

  lemma AscendFront(first: Member, rest: seq<Member>)
    requires KeysAscend(rest) && forall m :: m in rest ==> KeyLess(first.key, m.key)
    ensures KeysAscend([first] + rest)
  {
    var ms := [first] + rest;
    forall i, j | 0 <= i < j < |ms| ensures KeyLess(ms[i].key, ms[j].key) {
      assert ms[j] == rest[j - 1];
      assert i > 0 ==> ms[i] == rest[i - 1];
    }
  }

  lemma AscendRest(ms: seq<Member>)
    requires ms != [] && KeysAscend(ms)
    ensures KeysAscend(ms[1..]) && forall m :: m in ms[1..] ==> KeyLess(ms[0].key, m.key)
  {
    forall i, j | 0 <= i < j < |ms| - 1 ensures KeyLess(ms[1..][i].key, ms[1..][j].key) {
      assert ms[1..][i] == ms[i + 1] && ms[1..][j] == ms[j + 1];
    }
    forall m | m in ms[1..] ensures KeyLess(ms[0].key, m.key) {
      var i :| 0 <= i < |ms| - 1 && ms[1..][i] == m;
      assert m == ms[i + 1];
    }
  }

  lemma HasKeyMeans(ms: seq<Member>, key: ByteString)
    ensures HasKey(ms, key) <==> exists m :: m in ms && m.key == key
  {
    if m :| m in ms && m.key == key {
      var i :| 0 <= i < |ms| && ms[i] == m;
    }
  }

  /** A member is added to an ordered map in its place, unless its key is there already. */
  lemma {:induction false} EmplaceIs(ms: seq<Member>, key: ByteString, value: Json)
    requires KeysAscend(ms)
    ensures KeysAscend(Emplace(ms, key, value))
    ensures forall m :: m in Emplace(ms, key, value) <==> m in ms || (m == Member(key, value) && !HasKey(ms, key))
  {
    hide KeyLess, KeysAscend, HasKey;
    HasKeyMeans(ms, key);
    if ms == [] {
      OneAscends(Member(key, value));
    } else {
      var first, rest := ms[0], ms[1..];
      assert forall m :: m in ms <==> m == first || m in rest;
      AscendRest(ms);
      KeyOrder(first.key, key);
      if KeyLess(first.key, key) {
        EmplaceIs(rest, key, value);
        HasKeyMeans(rest, key);
        AscendFront(first, Emplace(rest, key, value));
      } else if KeyLess(key, first.key) {
        forall m | m in rest ensures KeyLess(key, m.key) && m.key != key {
          KeyLessTransitive(key, first.key, m.key);
          KeyOrder(key, m.key);
        }
        AscendFront(Member(key, value), ms);
      } else {
        assert first in ms;
      }
    }
  }

  lemma OneAscends(m: Member)
    ensures KeysAscend([m])
  {
  }

  lemma FirstOfKeyNext(pairs: seq<Member>, m: Member)
    requires pairs != []
    ensures FirstOfKey(pairs, m) <==> m == pairs[0] || (pairs[0].key != m.key && FirstOfKey(pairs[1..], m))
  {
    if FirstOfKey(pairs, m) && m != pairs[0] {
      var i :| 0 <= i < |pairs| && pairs[i] == m && forall k :: 0 <= k < i ==> pairs[k].key != m.key;
      assert pairs[1..][i - 1] == m && forall k :: 0 <= k < i - 1 ==> pairs[1..][k] == pairs[k + 1];
    }
    if pairs[0].key != m.key && FirstOfKey(pairs[1..], m) {
      var i :| 0 <= i < |pairs| - 1 && pairs[1..][i] == m && forall k :: 0 <= k < i ==> pairs[1..][k].key != m.key;
      assert pairs[i + 1] == m && forall k :: 0 < k < i + 1 ==> pairs[k] == pairs[1..][k - 1];
    }
  }

  /** An object has its members in key order, and for each key the first value given for it. */
  lemma {:induction false} GatheredIs(ms: seq<Member>, pairs: seq<Member>)
    requires KeysAscend(ms)
    ensures KeysAscend(Gathered(ms, pairs))
    ensures forall m :: m in Gathered(ms, pairs) <==> m in ms || (!HasKey(ms, m.key) && FirstOfKey(pairs, m))
    decreases |pairs|
  {
    hide KeysAscend, Emplace, HasKey;
    if pairs == [] {
      assert forall m :: !FirstOfKey(pairs, m);
    } else {
      hide FirstOfKey;
      var first, more := pairs[0], Emplace(ms, pairs[0].key, pairs[0].value);
      EmplaceIs(ms, first.key, first.value);
      GatheredIs(more, pairs[1..]);
      HasKeyMeans(ms, first.key);
      forall m ensures m in Gathered(ms, pairs) <==> m in ms || (!HasKey(ms, m.key) && FirstOfKey(pairs, m)) {
        FirstOfKeyNext(pairs, m);
        HasKeyMeans(ms, m.key);
        HasKeyMeans(more, m.key);
      }
    }
  }
}
